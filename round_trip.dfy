/** What a read sees after a write, and what a write of what was read does. */
module RoundTrip {
  import opened Wrappers
  import opened CommaList
  import opened XattrStore
  import opened AttributeRecord
  import opened Mapper

  /** After a successful write with a sound codec, the text under the key of
      a field is the field's text when it was present, and what was there
      before otherwise. */
  lemma FieldAfterWrite(fs: Fs, rec: Attributes, codec: Utf8, f: Field)
    requires Sound(codec)
    requires Present(rec, f) ==> Key(f) !in fs.getErrors
    requires WriteResult(fs, rec, codec).1 == Pass
    ensures GetXattr(WriteResult(fs, rec, codec).0, Key(f), codec) ==
      if Present(rec, f) then Text(rec, f) else GetXattr(fs, Key(f), codec)
  {
    var after := WriteResult(fs, rec, codec).0;
    StepsFollowTable(rec);
    WriteOutcome(fs, Steps(rec), codec, |WriteOrder|);
    var j := Position(f);
    if Present(rec, f) {
      WriteApplied(fs, Steps(rec), codec, |WriteOrder|);
      assert after.attrs[Key(f)] == codec.encode(Text(rec, f).value);
      assert codec.decode(codec.encode(Text(rec, f).value)) == Text(rec, f);
    } else {
      forall i | 0 <= i < |WriteOrder| && Present(rec, WriteOrder[i]) ensures Key(WriteOrder[i]) != Key(f) {
        KeyInjective(WriteOrder[i], f);
      }
      WriteFrame(fs, Steps(rec), codec, |WriteOrder|, Key(f));
    }
  }

  /** A successful write read back, with every written key readable: every string field comes back as written
      when it was present and as before when it was absent; tags come back
      as the comma split of their joined text. */
  lemma {:induction false} WriteThenRead(fs: Fs, rec: Attributes, codec: Utf8)
    requires Sound(codec)
    requires forall f :: Present(rec, f) ==> Key(f) !in fs.getErrors
    requires WriteResult(fs, rec, codec).1 == Pass
    ensures var before := ReadFile(fs, codec).value;
      var after := ReadFile(WriteResult(fs, rec, codec).0, codec).value;
      && (forall f :: f != Tags ==> Text(after, f) == if Present(rec, f) then Text(rec, f) else Text(before, f))
      && after.tags == match rec.tags case None => before.tags case Some(t) => Some(Split(Join(t)))
  {
    var written := WriteResult(fs, rec, codec).0;
    forall f | f != Tags
      ensures Text(ReadFile(written, codec).value, f) ==
        if Present(rec, f) then Text(rec, f) else Text(ReadFile(fs, codec).value, f)
    {
      FieldAfterWrite(fs, rec, codec, f);
    }
    FieldAfterWrite(fs, rec, codec, Tags);
  }

  /** The round trip of a record: when every absent field's key was absent,
      the tags (if any) are a non-empty list of comma-free tags and the write
      succeeds, reading the store back gives the record that was written. */
  lemma {:induction false} RecordRoundTrip(fs: Fs, rec: Attributes, codec: Utf8)
    requires Sound(codec)
    requires forall f :: Present(rec, f) ==> Key(f) !in fs.getErrors
    requires forall f :: !Present(rec, f) ==> Key(f) !in fs.attrs
    requires rec.tags.Some? ==> rec.tags.value != [] && forall i :: 0 <= i < |rec.tags.value| ==> Comma !in rec.tags.value[i]
    requires WriteResult(fs, rec, codec).1 == Pass
    ensures ReadFile(WriteResult(fs, rec, codec).0, codec) == Ok(rec)
  {
    var after := ReadFile(WriteResult(fs, rec, codec).0, codec).value;
    WriteThenRead(fs, rec, codec);
    forall f | f != Tags ensures Text(after, f) == Text(rec, f) {
      if !Present(rec, f) {
        assert GetXattr(fs, Key(f), codec) == None;
      }
    }
    if rec.tags.Some? {
      SplitJoin(rec.tags.value);
    } else {
      assert GetXattr(fs, Key(Tags), codec) == None;
    }
    TextsDetermineRecord(after, rec);
  }

  /** Writing `tags: Some([])` stores the empty string, which reads back as
      one empty tag rather than as no tags. */
  lemma EmptyTagsReadBackAsOneEmptyTag(fs: Fs, rec: Attributes, codec: Utf8)
    requires Sound(codec)
    requires rec.tags == Some([])
    requires Key(Tags) !in fs.getErrors
    requires WriteResult(fs, rec, codec).1 == Pass
    ensures ReadFile(WriteResult(fs, rec, codec).0, codec).value.tags == Some([""])
  {
    FieldAfterWrite(fs, rec, codec, Tags);
    EmptyListDoesNotRoundTrip();
  }

  /** A field the read found is stored as exactly the bytes of its text. */
  lemma ReadFieldEncodes(fs: Fs, codec: Utf8, f: Field)
    requires Sound(codec)
    requires Present(ReadFile(fs, codec).value, f)
    ensures Key(f) in fs.attrs
    ensures codec.encode(Text(ReadFile(fs, codec).value, f).value) == fs.attrs[Key(f)]
  {
    var rec := ReadFile(fs, codec).value;
    var k := Key(f);
    if f == Tags {
      assert Text(rec, f).value == GetXattr(fs, k, codec).value;
    } else {
      assert Text(rec, f) == GetXattr(fs, k, codec);
    }
    assert codec.encode(codec.decode(fs.attrs[k]).value) == fs.attrs[k];
  }

  /** Writing back what was read leaves the same bytes under the key of
      every field the read found: rewritten before the first refused set,
      untouched from it on. */
  lemma RewrittenFieldUnchanged(fs: Fs, codec: Utf8, f: Field)
    requires Sound(codec)
    requires Present(ReadFile(fs, codec).value, f)
    ensures var after := WriteResult(fs, ReadFile(fs, codec).value, codec).0;
      Key(f) in fs.attrs && Key(f) in after.attrs && after.attrs[Key(f)] == fs.attrs[Key(f)]
  {
    var rec := ReadFile(fs, codec).value;
    ReadFieldEncodes(fs, codec, f);
    StepsFollowTable(rec);
    WriteOfStep(fs, Steps(rec), codec, Position(f));
  }

  /** Writing back what was read leaves the stored attributes exactly as
      they were, even when a refused set stops the write partway. */
  lemma ReadThenWrite(fs: Fs, codec: Utf8)
    requires Sound(codec)
    ensures WriteResult(fs, ReadFile(fs, codec).value, codec).0.attrs == fs.attrs
  {
    var rec := ReadFile(fs, codec).value;
    var after := WriteResult(fs, rec, codec).0;
    WriteKeepsKeys(fs, Steps(rec), codec, |Steps(rec)|);
    forall k | k in after.attrs ensures k in fs.attrs && after.attrs[k] == fs.attrs[k] {
      if f :| Present(rec, f) && Key(f) == k {
        RewrittenFieldUnchanged(fs, codec, f);
      } else {
        WriteLeavesOtherKeys(fs, rec, codec, k);
      }
    }
    assert after.attrs.Keys == fs.attrs.Keys;
  }

  /** A store without attributes reads as the empty record. */
  lemma ReadEmptyStore(getErrors: map<string, IoError>, setErrors: map<string, IoError>, log: seq<string>, codec: Utf8)
    ensures ReadFile(Fs(map[], getErrors, setErrors, log), codec) ==
      Ok(Attributes(None, None, None, None, None, None, None, None, None))
  {
  }
}
