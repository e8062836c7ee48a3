/** The edit dialog of web/src/components/EditAppModal.tsx: the initial tag text, the tag
    parser, and the body handleSave sends (or the message it shows instead). The request and
    the React state are not modelled. */
module EditAppModal {
  import opened Text

  const NameRequired := "Name is required"

  /** A tag the parser produces. */
  predicate IsTag(t: string)
  {
    t != "" && IsTrimmed(t) && IsLower(t)
  }

  /** Lower-casing maps spaces to spaces and nothing else to a space, so it keeps a string
      trimmed. */
  lemma ToLowerKeepsTrimmed(s: string)
    requires IsTrimmed(s)
    ensures IsTrimmed(ToLower(s))
  {
  }

  /** One piece's tag, `t.trim().toLowerCase()`, kept only when it is not empty. */
  function PieceTag(piece: string): (r: seq<string>)
    ensures |r| <= 1
    ensures forall k :: 0 <= k < |r| ==> IsTag(r[k])
  {
    var t := ToLower(Trim(piece));
    assert IsTrimmed(t) && IsLower(t) by {
      ToLowerKeepsTrimmed(Trim(piece));
      ToLowerIsLower(Trim(piece));
    }
    if |t| > 0 then [t] else []
  }

  /** `.map(t => t.trim().toLowerCase()).filter(t => t.length > 0)` */
  function KeepTags(pieces: seq<string>): (r: seq<string>)
    ensures |r| <= |pieces|
    ensures forall k :: 0 <= k < |r| ==> IsTag(r[k])
    decreases |pieces|
  {
    if pieces == [] then [] else PieceTag(pieces[0]) + KeepTags(pieces[1..])
  }

  /** Tags are parsed piece by piece, so they keep the order of the input. */
  lemma {:induction false} KeepTagsAppend(a: seq<string>, b: seq<string>)
    ensures KeepTags(a + b) == KeepTags(a) + KeepTags(b)
    decreases |a|
  {
    if a == [] {
      assert a + b == b;
    } else {
      var head := PieceTag(a[0]);
      assert (a + b)[0] == a[0] && (a + b)[1..] == a[1..] + b;
      assert KeepTags(a + b) == head + KeepTags(a[1..] + b);
      KeepTagsAppend(a[1..], b);
      assert head + (KeepTags(a[1..]) + KeepTags(b)) == (head + KeepTags(a[1..])) + KeepTags(b);
    }
  }

  /** The tags of the comma-separated input. */
  function ParseTags(input: string): (r: seq<string>)
    ensures forall k :: 0 <= k < |r| ==> IsTag(r[k])
  {
    KeepTags(Split(input, {','}))
  }

  /** The initial text of the tag field: `tags?.join(", ") || ""`. */
  function InitialTags(tags: Option<seq<string>>): string
  {
    if tags.Some? then Join(tags.value, ", ") else ""
  }

  /** Saving the dialog unedited keeps the tags: parsing the initial text gives back tags that
      are already lower-case, trimmed, non-empty and free of commas. */
  lemma TagsRoundTrip(tags: seq<string>)
    requires forall k :: 0 <= k < |tags| ==> IsTag(tags[k]) && NoneIn(tags[k], {','})
    ensures ParseTags(InitialTags(Some(tags))) == tags
  {
    if tags == [] {
      assert Split("", {','}) == [""];
      assert Trim("") == "";
    } else {
      assert ", " == [','] + " ";
      SplitJoin(tags, ',', " ", {','});
      var pieces := Split(Join(tags, ", "), {','});
      KeepPadded(pieces, tags);
    }
  }

  /** Pieces that are tags, all but the first behind one space, parse back to the tags. */
  lemma {:induction false} KeepPadded(pieces: seq<string>, tags: seq<string>)
    requires |pieces| == |tags| && forall k :: 0 <= k < |tags| ==> IsTag(tags[k])
    requires |tags| > 0 ==> pieces[0] == tags[0]
    requires forall k :: 1 <= k < |tags| ==> pieces[k] == " " + tags[k]
    ensures KeepTags(pieces) == tags
    decreases |tags|
  {
    if tags != [] {
      var t := tags[0];
      TrimmedIsFixed(t);
      ToLowerOfLower(t);
      assert PieceTag(pieces[0]) == [t];
      var rest := pieces[1..];
      forall k | 0 <= k < |tags[1..]| ensures rest[k] == " " + tags[1..][k] {
        assert rest[k] == pieces[k + 1];
      }
      KeepPaddedTail(rest, tags[1..]);
    }
  }

  /** The pieces after the first all carry the space. */
  lemma {:induction false} KeepPaddedTail(pieces: seq<string>, tags: seq<string>)
    requires |pieces| == |tags| && forall k :: 0 <= k < |tags| ==> IsTag(tags[k])
    requires forall k :: 0 <= k < |tags| ==> pieces[k] == " " + tags[k]
    ensures KeepTags(pieces) == tags
    decreases |tags|
  {
    if tags != [] {
      PaddedTag(tags[0]);
      assert PieceTag(pieces[0]) == [tags[0]];
      var rest := pieces[1..];
      forall k | 0 <= k < |tags[1..]| ensures rest[k] == " " + tags[1..][k] {
        assert rest[k] == pieces[k + 1];
      }
      KeepPaddedTail(rest, tags[1..]);
      assert KeepTags(pieces) == [tags[0]] + KeepTags(rest);
    }
  }

  /** A tag behind the ", " separator's space parses back to itself. */
  lemma PaddedTag(t: string)
    requires IsTag(t)
    ensures ToLower(Trim(" " + t)) == t
  {
    assert " " + t == " " + t + "";
    TrimPadded(" ", t, "");
    ToLowerOfLower(t);
  }

  /** The PATCH body: `{ name, description, tags }`; None stands for null. */
  datatype Payload = Payload(name: string, description: Option<string>, tags: Option<seq<string>>)

  datatype SaveOutcome = Send(payload: Payload) | Refused(message: string)

  /** handleSave. */
  function HandleSave(name: string, description: string, tagsInput: string): (r: SaveOutcome)
    ensures Trim(name) == "" <==> r == Refused(NameRequired)
    ensures r.Send? ==>
      && r.payload.name == Trim(name) && r.payload.name != "" && IsTrimmed(r.payload.name)
      && (r.payload.description.None? <==> Trim(description) == "")
      && (r.payload.description.Some? ==> r.payload.description.value == Trim(description))
      && (r.payload.tags.None? <==> ParseTags(tagsInput) == [])
      && (r.payload.tags.Some? ==> r.payload.tags.value == ParseTags(tagsInput))
  {
    if Trim(name) == "" then Refused(NameRequired)
    else
      var tags := ParseTags(tagsInput);
      var desc := Trim(description);
      Send(Payload(Trim(name), if desc != "" then Some(desc) else None, if |tags| > 0 then Some(tags) else None))
  }
}
