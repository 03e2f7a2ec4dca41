/** The comma-delimited list codec behind the `user.xdg.tags` attribute:
    `csv` splits a string at every comma (keeping empty pieces, as Rust's
    `str::split(",")` does) and `write_file` joins the tags with `","`
    (as `[String]::join(",")`). There is no escaping, so the two are
    inverses only on non-empty lists of comma-free tags. */
module CommaList {

  const Comma: char := ','

  /** `input.split(",").collect()`: the pieces between consecutive commas.
      There is always at least one piece, and no piece holds a comma. */
  function Split(s: string): (r: seq<string>)
    ensures |r| >= 1
    ensures forall i :: 0 <= i < |r| ==> Comma !in r[i]
    decreases |s|
  {
    if s == [] then [""]
    else
      var rest := Split(s[1..]);
      assert s == [s[0]] + s[1..];
      if s[0] == Comma then [""] + rest
      else [[s[0]] + rest[0]] + rest[1..]
  }

  /** There is one more piece than there are commas. */
  lemma {:induction false} SplitCount(s: string)
    ensures |Split(s)| == multiset(s)[Comma] + 1
    decreases |s|
  {
    if s != [] {
      SplitCount(s[1..]);
      assert s == [s[0]] + s[1..];
    }
  }

  /** `tags.join(",")`: the parts with a comma between each two neighbours;
      the empty list joins to the empty string. */
  function Join(parts: seq<string>): string
    decreases |parts|
  {
    if |parts| == 0 then ""
    else if |parts| == 1 then parts[0]
    else parts[0] + [Comma] + Join(parts[1..])
  }

  /** Prepending a character to the first part prepends it to the joined string. */
  lemma {:induction false} JoinConsHead(c: char, parts: seq<string>)
    requires |parts| >= 1
    ensures Join([[c] + parts[0]] + parts[1..]) == [c] + Join(parts)
  {
    var q := [[c] + parts[0]] + parts[1..];
    assert q[0] == [c] + parts[0];
    if |parts| > 1 {
      assert q[1..] == parts[1..];
    }
  }

  /** Split-then-join is the identity: every string is the join of its pieces. */
  lemma {:induction false} JoinSplit(s: string)
    ensures Join(Split(s)) == s
    decreases |s|
  {
    if s != [] {
      JoinSplit(s[1..]);
      var rest := Split(s[1..]);
      if s[0] == Comma {
        assert Split(s) == [""] + rest;
        assert ([""] + rest)[1..] == rest;
        assert Join([""] + rest) == "" + [Comma] + Join(rest);
        assert s == "" + [Comma] + s[1..];
      } else {
        assert Split(s) == [[s[0]] + rest[0]] + rest[1..];
        JoinConsHead(s[0], rest);
        assert s == [s[0]] + s[1..];
      }
    }
  }

  /** A comma-free prefix glues onto the first piece of what follows it. */
  lemma {:induction false} SplitPrefix(p: string, t: string)
    requires Comma !in p
    ensures Split(p + t) == [p + Split(t)[0]] + Split(t)[1..]
    decreases |p|
  {
    if p != [] {
      var pt := p + t;
      assert pt[1..] == p[1..] + t;
      SplitPrefix(p[1..], t);
      var r := Split(pt[1..]);
      assert r[0] == p[1..] + Split(t)[0];
      assert r[1..] == Split(t)[1..];
      assert pt[0] == p[0] != Comma;
      assert Split(pt) == [[p[0]] + r[0]] + r[1..];
      assert [p[0]] + r[0] == p + Split(t)[0];
    } else {
      assert p + t == t;
      assert p + Split(t)[0] == Split(t)[0];
    }
  }

  /** Join-then-split is the identity on non-empty lists of comma-free parts. */
  lemma {:induction false} SplitJoin(parts: seq<string>)
    requires |parts| >= 1
    requires forall i :: 0 <= i < |parts| ==> Comma !in parts[i]
    ensures Split(Join(parts)) == parts
    decreases |parts|
  {
    if |parts| == 1 {
      SplitPrefix(parts[0], "");
      assert parts[0] + "" == parts[0];
    } else {
      var rest := Join(parts[1..]);
      SplitJoin(parts[1..]);
      assert parts[0] + [Comma] + rest == parts[0] + ([Comma] + rest);
      SplitPrefix(parts[0], [Comma] + rest);
      assert ([Comma] + rest)[1..] == rest;
      assert Split([Comma] + rest) == [""] + parts[1..];
      assert parts[0] + "" == parts[0];
      assert parts == [parts[0]] + parts[1..];
    }
  }

  /** Split never returns the empty list, so the empty tag list is not
      recovered from its encoding: it comes back as one empty tag. */
  lemma EmptyListDoesNotRoundTrip()
    ensures Join([]) == ""
    ensures Split(Join([])) == [""]
    ensures Split(Join([])) != []
  {
  }

  /** A comma-free string is a single piece. */
  lemma SplitSingle(s: string)
    requires Comma !in s
    ensures Split(s) == [s]
  {
    SplitPrefix(s, "");
    assert s + "" == s;
  }

  /** A tag holding a comma comes back as two tags. */
  lemma CommaInTagDoesNotRoundTrip()
    ensures Join(["a,b"]) == "a,b"
    ensures Split(Join(["a,b"])) == ["a", "b"]
  {
    SplitJoin(["a", "b"]);
    assert Join(["a", "b"]) == "a,b";
  }

  /** `a,,b` keeps its empty middle piece; the empty string is one empty piece. */
  lemma SplitExamples()
    ensures Split("a,,b") == ["a", "", "b"]
    ensures Split("") == [""]
  {
    var parts := ["a", "", "b"];
    assert Join(parts[2..]) == "b";
    assert Join(parts[1..]) == ",b";
    assert Join(parts) == "a,,b";
    SplitJoin(parts);
  }

  /** Three tags join with two commas and split back into the same three. */
  lemma JoinExample()
    ensures Join(["alpha", "beta", "gamma"]) == "alpha,beta,gamma"
    ensures Split("alpha,beta,gamma") == ["alpha", "beta", "gamma"]
  {
    var parts := ["alpha", "beta", "gamma"];
    assert Join(parts[2..]) == "gamma";
    assert Join(parts[1..]) == "beta,gamma";
    assert Join(parts) == "alpha,beta,gamma";
    SplitJoin(parts);
  }
}
