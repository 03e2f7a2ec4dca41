/** The `Attributes` record of nine optional metadata fields and the fixed
    table that names the extended attribute each field is stored under
    (the `user.xdg.*` keys of the freedesktop.org Common Extended
    Attributes guidelines, plus the de-facto `user.xdg.tags`). */
module AttributeRecord {
  import opened Wrappers
  import opened CommaList

  datatype Attributes = Attributes(
    comment: Option<string>,
    creator: Option<string>,
    language: Option<string>,
    tags: Option<seq<string>>,
    originUrl: Option<string>,
    originReferrer: Option<string>,
    originEmailSubject: Option<string>,
    originEmailFrom: Option<string>,
    originEmailMessageId: Option<string>)

  datatype Field =
    | Comment | Creator | Language | Tags | OriginUrl | OriginReferrer
    | OriginEmailSubject | OriginEmailFrom | OriginEmailMessageId

  /** The attribute key each field is stored under. */
  function Key(f: Field): string
  {
    match f
    case Comment => "user.xdg.comment"
    case Creator => "user.xdg.creator"
    case Language => "user.xdg.language"
    case Tags => "user.xdg.tags"
    case OriginUrl => "user.xdg.origin.url"
    case OriginReferrer => "user.xdg.referrer.url"
    case OriginEmailSubject => "user.xdg.origin.email.subject"
    case OriginEmailFrom => "user.xdg.origin.email.from"
    case OriginEmailMessageId => "user.xdg.origin.email.message-id"
  }

  /** The order in which a write visits the fields. */
  const WriteOrder: seq<Field> :=
    [Comment, Creator, Language, Tags, OriginUrl, OriginReferrer,
     OriginEmailSubject, OriginEmailFrom, OriginEmailMessageId]

  /** The text a field holds as it is stored: the value of a string field,
      and for `tags` the tags joined with commas. */
  function Text(a: Attributes, f: Field): Option<string>
  {
    match f
    case Comment => a.comment
    case Creator => a.creator
    case Language => a.language
    case Tags => (match a.tags case None => None case Some(t) => Some(Join(t)))
    case OriginUrl => a.originUrl
    case OriginReferrer => a.originReferrer
    case OriginEmailSubject => a.originEmailSubject
    case OriginEmailFrom => a.originEmailFrom
    case OriginEmailMessageId => a.originEmailMessageId
  }

  predicate Present(a: Attributes, f: Field)
  {
    Text(a, f).Some?
  }

  /** Distinct fields are stored under distinct keys, all in the `user.xdg.`
      namespace; the referrer is `user.xdg.referrer.url`, outside `origin`. */
  lemma KeyInjective(f: Field, g: Field)
    ensures Key(f) == Key(g) <==> f == g
    ensures "user.xdg." <= Key(f)
    ensures Key(OriginReferrer) == "user.xdg.referrer.url"
  {
  }

  /** Where a field comes in the write order: every field comes in it,
      exactly once. */
  function Position(f: Field): (i: nat)
    ensures i < |WriteOrder| && WriteOrder[i] == f
    ensures forall j :: 0 <= j < |WriteOrder| && WriteOrder[j] == f ==> j == i
  {
    match f
    case Comment => 0
    case Creator => 1
    case Language => 2
    case Tags => 3
    case OriginUrl => 4
    case OriginReferrer => 5
    case OriginEmailSubject => 6
    case OriginEmailFrom => 7
    case OriginEmailMessageId => 8
  }

  /** A record is determined by the texts of its string fields and its tags. */
  lemma TextsDetermineRecord(a: Attributes, b: Attributes)
    requires forall f :: f != Tags ==> Text(a, f) == Text(b, f)
    requires a.tags == b.tags
    ensures a == b
  {
    assert Text(a, Comment) == Text(b, Comment);
    assert Text(a, Creator) == Text(b, Creator);
    assert Text(a, Language) == Text(b, Language);
    assert Text(a, OriginUrl) == Text(b, OriginUrl);
    assert Text(a, OriginReferrer) == Text(b, OriginReferrer);
    assert Text(a, OriginEmailSubject) == Text(b, OriginEmailSubject);
    assert Text(a, OriginEmailFrom) == Text(b, OriginEmailFrom);
    assert Text(a, OriginEmailMessageId) == Text(b, OriginEmailMessageId);
  }

  /** Keys met at two different steps of a write differ. */
  lemma OrderKeysDistinct(i: nat, j: nat)
    requires i < |WriteOrder| && j < |WriteOrder| && i != j
    ensures Key(WriteOrder[i]) != Key(WriteOrder[j])
  {
    KeyInjective(WriteOrder[i], WriteOrder[j]);
  }
}
