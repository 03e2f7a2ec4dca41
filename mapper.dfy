/** The attribute record mapper: `Attributes::read_file` assembles the
    record from nine lookups, `Attributes::write_file` applies the present
    fields to the store one `set` at a time and stops at the first error. */
module Mapper {
  import opened Wrappers
  import opened CommaList
  import opened XattrStore
  import opened AttributeRecord

  /** `get_xattr`: the attribute's text, or `None` when the lookup fails,
      the key is absent or its bytes are not UTF-8. */
  function GetXattr(fs: Fs, key: string, codec: Utf8): (r: Option<string>)
    ensures r.Some? <==> key in fs.attrs && key !in fs.getErrors && codec.decode(fs.attrs[key]).Some?
    ensures r.Some? ==> r == codec.decode(fs.attrs[key])
  {
    match Get(fs, key)
    case Ok(Some(v)) => codec.decode(v)
    case _ => None
  }

  /** `Attributes::read_file`: never fails; each string field is what its
      key in the table holds, and `tags` is the comma-free list that joins
      to the text of `user.xdg.tags` (never the empty list). */
  function ReadFile(fs: Fs, codec: Utf8): (r: Result<Attributes, IoError>)
    ensures r.Ok?
    ensures forall f :: f != Tags ==> Text(r.value, f) == GetXattr(fs, Key(f), codec)
    ensures r.value.tags.None? <==> GetXattr(fs, Key(Tags), codec).None?
    ensures r.value.tags.Some? ==>
      && Join(r.value.tags.value) == GetXattr(fs, Key(Tags), codec).value
      && r.value.tags.value != []
      && forall i :: 0 <= i < |r.value.tags.value| ==> Comma !in r.value.tags.value[i]
  {
    var comment := GetXattr(fs, "user.xdg.comment", codec);
    var creator := GetXattr(fs, "user.xdg.creator", codec);
    var language := GetXattr(fs, "user.xdg.language", codec);
    var tags := GetXattr(fs, "user.xdg.tags", codec);
    var originUrl := GetXattr(fs, "user.xdg.origin.url", codec);
    var originReferrer := GetXattr(fs, "user.xdg.referrer.url", codec);
    var originEmailSubject := GetXattr(fs, "user.xdg.origin.email.subject", codec);
    var originEmailFrom := GetXattr(fs, "user.xdg.origin.email.from", codec);
    var originEmailMessageId := GetXattr(fs, "user.xdg.origin.email.message-id", codec);
    Ok(Attributes(
      comment,
      creator,
      language,
      match tags case None => None case Some(v) => JoinSplit(v); Some(Split(v)),
      originUrl,
      originReferrer,
      originEmailSubject,
      originEmailFrom,
      originEmailMessageId))
  }

  /** One `if let Some(ref v) = self.field { xattr::set(..) }` block of a
      write: the key it sets and the text it stores there, if any. */
  datatype Step = Step(key: string, text: Option<string>)

  /** The steps of `write_file`, in the order the source performs them;
      the tags are stored comma-joined. */
  function Steps(rec: Attributes): seq<Step>
  {
    [ Step("user.xdg.comment", rec.comment),
      Step("user.xdg.creator", rec.creator),
      Step("user.xdg.language", rec.language),
      Step("user.xdg.tags", match rec.tags case None => None case Some(t) => Some(Join(t))),
      Step("user.xdg.origin.url", rec.originUrl),
      Step("user.xdg.referrer.url", rec.originReferrer),
      Step("user.xdg.origin.email.subject", rec.originEmailSubject),
      Step("user.xdg.origin.email.from", rec.originEmailFrom),
      Step("user.xdg.origin.email.message-id", rec.originEmailMessageId) ]
  }

  /** No two steps set the same key. */
  predicate DistinctKeys(steps: seq<Step>)
  {
    forall i, j :: 0 <= i < j < |steps| ==> steps[i].key != steps[j].key
  }

  /** The write uses the same key table as the read, field by field in the
      write order, and so never sets a key twice. */
  lemma StepsFollowTable(rec: Attributes)
    ensures |Steps(rec)| == |WriteOrder|
    ensures forall i :: 0 <= i < |WriteOrder| ==> Steps(rec)[i] == Step(Key(WriteOrder[i]), Text(rec, WriteOrder[i]))
    ensures DistinctKeys(Steps(rec))
  {
    forall i, j | 0 <= i < j < |WriteOrder| ensures Steps(rec)[i].key != Steps(rec)[j].key {
      OrderKeysDistinct(i, j);
    }
  }

  /** Carries out `step`: sets its key to the UTF-8 bytes of its text;
      nothing happens when there is no text. */
  function SetStep(fs: Fs, step: Step, codec: Utf8): (Fs, Outcome<IoError>)
  {
    match step.text
    case None => (fs, Pass)
    case Some(t) => Set(fs, step.key, codec.encode(t))
  }

  /** The store and the outcome after the first `n` steps of a write; once
      a set has failed the remaining steps do nothing. */
  function WriteUpTo(fs: Fs, steps: seq<Step>, codec: Utf8, n: nat): (Fs, Outcome<IoError>)
    requires n <= |steps|
  {
    if n == 0 then (fs, Pass)
    else
      var prev := WriteUpTo(fs, steps, codec, n - 1);
      if prev.1.Fail? then prev else SetStep(prev.0, steps[n - 1], codec)
  }

  /** The first step, from `i` on, that has a text and whose key the store
      refuses to set; `|steps|` when there is none. */
  function FirstFailure(setErrors: map<string, IoError>, steps: seq<Step>, i: nat): (n: nat)
    requires i <= |steps|
    ensures i <= n <= |steps|
    ensures n < |steps| ==> steps[n].text.Some? && steps[n].key in setErrors
    ensures forall j :: i <= j < n ==> steps[j].text.None? || steps[j].key !in setErrors
    decreases |steps| - i
  {
    if i == |steps| then i
    else if steps[i].text.Some? && steps[i].key in setErrors then i
    else FirstFailure(setErrors, steps, i + 1)
  }

  /** The keys of the steps with a text among the first `n`, in order. */
  function KeysWithText(steps: seq<Step>, n: nat): seq<string>
    requires n <= |steps|
  {
    if n == 0 then []
    else KeysWithText(steps, n - 1) + (if steps[n - 1].text.Some? then [steps[n - 1].key] else [])
  }

  /** The store and the outcome `write_file` leaves behind. */
  function WriteResult(fs: Fs, rec: Attributes, codec: Utf8): (Fs, Outcome<IoError>)
  {
    WriteUpTo(fs, Steps(rec), codec, |Steps(rec)|)
  }

  /** One block of `write_file`. Run as step `k` of a write that has gone
      through so far, it takes the write one step further. */
  method SetIfPresent(prev: Fs, key: string, text: Option<string>, codec: Utf8,
                      ghost fs: Fs, ghost steps: seq<Step>, ghost k: nat)
    returns (next: Fs, out: Outcome<IoError>)
    ensures (next, out) == SetStep(prev, Step(key, text), codec)
    ensures k < |steps| && steps[k] == Step(key, text) && (prev, Pass) == WriteUpTo(fs, steps, codec, k)
            ==> (next, out) == WriteUpTo(fs, steps, codec, k + 1)
  {
    if text.Some? {
      var (s, o) := Set(prev, key, codec.encode(text.value));
      next, out := s, o;
    } else {
      next, out := prev, Pass;
    }
  }

  /** Once a step of a write has failed, the write's result is fixed. */
  lemma {:induction false} FailureSticks(fs: Fs, steps: seq<Step>, codec: Utf8, k: nat, n: nat)
    requires k <= n <= |steps|
    requires WriteUpTo(fs, steps, codec, k).1.Fail?
    ensures WriteUpTo(fs, steps, codec, n) == WriteUpTo(fs, steps, codec, k)
    decreases n
  {
    if k < n {
      FailureSticks(fs, steps, codec, k, n - 1);
    }
  }

  /** `Attributes::write_file`: nine conditional sets in the fixed order,
      each returning early on an error, as the source writes them. */
  method WriteFile(rec: Attributes, fs: Fs, codec: Utf8) returns (fs': Fs, r: Outcome<IoError>)
    ensures (fs', r) == WriteResult(fs, rec, codec)
  {
    ghost var steps := Steps(rec);
    fs' := fs;
    fs', r := SetIfPresent(fs', "user.xdg.comment", rec.comment, codec, fs, steps, 0);
    if r.Fail? { FailureSticks(fs, steps, codec, 1, 9); return; }
    fs', r := SetIfPresent(fs', "user.xdg.creator", rec.creator, codec, fs, steps, 1);
    if r.Fail? { FailureSticks(fs, steps, codec, 2, 9); return; }
    fs', r := SetIfPresent(fs', "user.xdg.language", rec.language, codec, fs, steps, 2);
    if r.Fail? { FailureSticks(fs, steps, codec, 3, 9); return; }
    var tagsStr := match rec.tags case None => None case Some(t) => Some(Join(t));
    fs', r := SetIfPresent(fs', "user.xdg.tags", tagsStr, codec, fs, steps, 3);
    if r.Fail? { FailureSticks(fs, steps, codec, 4, 9); return; }
    fs', r := SetIfPresent(fs', "user.xdg.origin.url", rec.originUrl, codec, fs, steps, 4);
    if r.Fail? { FailureSticks(fs, steps, codec, 5, 9); return; }
    fs', r := SetIfPresent(fs', "user.xdg.referrer.url", rec.originReferrer, codec, fs, steps, 5);
    if r.Fail? { FailureSticks(fs, steps, codec, 6, 9); return; }
    fs', r := SetIfPresent(fs', "user.xdg.origin.email.subject", rec.originEmailSubject, codec, fs, steps, 6);
    if r.Fail? { FailureSticks(fs, steps, codec, 7, 9); return; }
    fs', r := SetIfPresent(fs', "user.xdg.origin.email.from", rec.originEmailFrom, codec, fs, steps, 7);
    if r.Fail? { FailureSticks(fs, steps, codec, 8, 9); return; }
    fs', r := SetIfPresent(fs', "user.xdg.origin.email.message-id", rec.originEmailMessageId, codec, fs, steps, 8);
  }

  /** A write leaves the store's error behaviour alone, and it fails exactly
      when some step with a text is refused: with the error of the first
      such step. */
  lemma {:induction false} WriteOutcome(fs: Fs, steps: seq<Step>, codec: Utf8, n: nat)
    requires n <= |steps|
    ensures WriteUpTo(fs, steps, codec, n).0.getErrors == fs.getErrors
    ensures WriteUpTo(fs, steps, codec, n).0.setErrors == fs.setErrors
    ensures var first := FirstFailure(fs.setErrors, steps, 0);
      WriteUpTo(fs, steps, codec, n).1 == if first < n then Fail(fs.setErrors[steps[first].key]) else Pass
    decreases n
  {
    if n > 0 {
      WriteOutcome(fs, steps, codec, n - 1);
    }
  }

  /** With distinct keys, every step with a text before the first refused
      set leaves its key holding the UTF-8 bytes of that text; a failure
      does not undo earlier sets. */
  lemma {:induction false} WriteApplied(fs: Fs, steps: seq<Step>, codec: Utf8, n: nat)
    requires n <= |steps|
    requires DistinctKeys(steps)
    ensures var after := WriteUpTo(fs, steps, codec, n).0;
      forall j :: 0 <= j < n && j < FirstFailure(fs.setErrors, steps, 0) && steps[j].text.Some? ==>
        steps[j].key in after.attrs && after.attrs[steps[j].key] == codec.encode(steps[j].text.value)
    decreases n
  {
    if n > 0 {
      WriteApplied(fs, steps, codec, n - 1);
      WriteOutcome(fs, steps, codec, n - 1);
    }
  }

  /** A key that no step with a text before the first refused set is
      stored under keeps its value, or its absence. */
  lemma {:induction false} WriteFrame(fs: Fs, steps: seq<Step>, codec: Utf8, n: nat, k: string)
    requires n <= |steps|
    requires forall j :: 0 <= j < n && j < FirstFailure(fs.setErrors, steps, 0) && steps[j].text.Some? ==>
      steps[j].key != k
    ensures var after := WriteUpTo(fs, steps, codec, n).0;
      && (k in after.attrs <==> k in fs.attrs)
      && (k in fs.attrs ==> after.attrs[k] == fs.attrs[k])
    decreases n
  {
    if n > 0 {
      WriteFrame(fs, steps, codec, n - 1, k);
      WriteOutcome(fs, steps, codec, n - 1);
    }
  }

  /** With distinct keys, the key of a step with a text ends up holding
      the encoded text when the step comes before the first refused set,
      and keeps its old value, or its absence, otherwise. */
  lemma {:induction false} WriteOfStep(fs: Fs, steps: seq<Step>, codec: Utf8, j: nat)
    requires DistinctKeys(steps)
    requires j < |steps| && steps[j].text.Some?
    ensures var after := WriteUpTo(fs, steps, codec, |steps|).0; var k := steps[j].key;
      if j < FirstFailure(fs.setErrors, steps, 0) then
        k in after.attrs && after.attrs[k] == codec.encode(steps[j].text.value)
      else
        (k in after.attrs <==> k in fs.attrs) && (k in fs.attrs ==> after.attrs[k] == fs.attrs[k])
  {
    if j < FirstFailure(fs.setErrors, steps, 0) {
      WriteApplied(fs, steps, codec, |steps|);
    } else {
      WriteFrame(fs, steps, codec, |steps|, steps[j].key);
    }
  }

  /** A write never removes an attribute. */
  lemma {:induction false} WriteKeepsKeys(fs: Fs, steps: seq<Step>, codec: Utf8, n: nat)
    requires n <= |steps|
    ensures fs.attrs.Keys <= WriteUpTo(fs, steps, codec, n).0.attrs.Keys
    decreases n
  {
    if n > 0 {
      WriteKeepsKeys(fs, steps, codec, n - 1);
    }
  }

  /** The sets attempted are those of the steps with a text, in order, up
      to and including the first refused one; none is attempted after it. */
  lemma {:induction false} WriteAttempts(fs: Fs, steps: seq<Step>, codec: Utf8, n: nat)
    requires n <= |steps|
    ensures var first := FirstFailure(fs.setErrors, steps, 0);
      WriteUpTo(fs, steps, codec, n).0.setLog == fs.setLog + KeysWithText(steps, if first < n then first + 1 else n)
    decreases n
  {
    if n > 0 {
      WriteAttempts(fs, steps, codec, n - 1);
      WriteOutcome(fs, steps, codec, n - 1);
      var first := FirstFailure(fs.setErrors, steps, 0);
      if first >= n - 1 {
        var prev := WriteUpTo(fs, steps, codec, n - 1).0;
        var last := if steps[n - 1].text.Some? then [steps[n - 1].key] else [];
        assert prev.setLog + last == fs.setLog + (KeysWithText(steps, n - 1) + last);
      }
    }
  }

  /** A whole `write_file` succeeds exactly when the store accepts the key
      of every present field. */
  lemma WriteSucceedsIff(fs: Fs, rec: Attributes, codec: Utf8)
    ensures WriteResult(fs, rec, codec).1 == Pass <==>
      forall f :: Present(rec, f) ==> Key(f) !in fs.setErrors
  {
    StepsFollowTable(rec);
    WriteOutcome(fs, Steps(rec), codec, |WriteOrder|);
    if FirstFailure(fs.setErrors, Steps(rec), 0) == |WriteOrder| {
      forall f | Present(rec, f) ensures Key(f) !in fs.setErrors {
        var j := Position(f);
      }
    }
  }

  /** `write_file` leaves alone every key that is not the key of a present
      field: the keys of absent fields and every key outside the table. */
  lemma WriteLeavesOtherKeys(fs: Fs, rec: Attributes, codec: Utf8, k: string)
    requires forall f :: Present(rec, f) ==> Key(f) != k
    ensures var after := WriteResult(fs, rec, codec).0;
      && (k in after.attrs <==> k in fs.attrs)
      && (k in fs.attrs ==> after.attrs[k] == fs.attrs[k])
  {
    StepsFollowTable(rec);
    WriteFrame(fs, Steps(rec), codec, |WriteOrder|, k);
  }
}
