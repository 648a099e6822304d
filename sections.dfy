/** The section parser of the `/api/run` handler (app.py:163-186): it splits
    the model's reply into the caller's named sections. A section starts
    right after the first bold marker `**label**` (matched case-insensitively)
    and ends at the nearest marker of any other requested label. */
module Sections {
  import opened Wrappers
  import opened PyStr

  /** Placeholder for a label whose marker the reply does not contain. */
  const NoResponse: string := "(no response)"
  /** Placeholder for a section whose text is empty or only whitespace. */
  const NoContent: string := "(no content)"

  /** The marker searched for: `f"**{label.strip().lower()}**"`. */
  function Marker(name: string): (m: string)
    ensures |m| >= 4
  {
    "**" + Lower(Strip(name)) + "**"
  }

  /** Every marker starts with `**`. */
  lemma MarkerStartsBold(name: string)
    ensures Marker(name)[..2] == "**"
  {
  }

  /** A bold header `**h**` in the reply is found by the marker of any label
      equal to `h` up to case and surrounding whitespace. */
  lemma HeaderFound(text: string, name: string, h: string, i: nat)
    requires OccursAt(text, "**" + h + "**", i) && Lower(h) == Lower(Strip(name))
    ensures OccursAt(Lower(text), Marker(name), i)
  {
    var p := "**" + h + "**";
    LowerSlice(text, i, i + |p|);
    assert Lower(p) == Marker(name);
  }

  /** The two list comprehensions of app.py:177-182: the position of the
      first marker, at or after `start`, of every requested label whose raw
      string differs from `section`, in request order, with the misses
      (-1) dropped. */
  function OtherMarkerHits(lower: string, sections: seq<string>, section: string, start: nat): (ps: seq<nat>)
    ensures |ps| <= |sections|
    ensures forall p :: p in ps ==> start <= p
  {
    if sections == [] then []
    else
      var rest := OtherMarkerHits(lower, sections[1..], section, start);
      var s := sections[0];
      var p := Find(lower, Marker(s), start);
      if s != section && p != -1 then [p] + rest else rest
  }

  /** Python's `min` over a non-empty list. */
  function Min(ps: seq<nat>): (m: nat)
    requires ps != []
    ensures m in ps
    ensures forall p :: p in ps ==> m <= p
  {
    if |ps| == 1 then ps[0]
    else
      var m := Min(ps[1..]);
      assert forall p :: p in ps ==> p == ps[0] || p in ps[1..];
      if ps[0] <= m then ps[0] else m
  }

  /** `next_marker` (app.py:183): the smallest hit, or `None`. */
  function NextMarker(lower: string, sections: seq<string>, section: string, start: nat): (n: Option<nat>)
    ensures n.None? <==> OtherMarkerHits(lower, sections, section, start) == []
    ensures n.Some? ==> start <= n.value && n.value in OtherMarkerHits(lower, sections, section, start)
  {
    var ps := OtherMarkerHits(lower, sections, section, start);
    if ps == [] then None
    else Some(Min(ps))
  }

  /** `end` is where the section that starts at `start` ends: no marker of
      another requested label begins in `[start, end)`, and unless `end` is
      the end of the text one such marker begins at `end`. */
  ghost predicate IsSectionEnd(lower: string, sections: seq<string>, section: string, start: nat, end: nat)
  {
    start <= end <= |lower| &&
    (forall q, s :: start <= q < end && s in sections && s != section ==> !OccursAt(lower, Marker(s), q)) &&
    (end < |lower| ==> exists s :: s in sections && s != section && OccursAt(lower, Marker(s), end))
  }

  /** `ai_text[start:next_marker] if next_marker else ai_text[start:]`.
      Python's `if next_marker` also treats a hit at index 0 as absent; a
      hit is never before `start`, which is past a marker, so that case
      does not arise. */
  function SectionSlice(text: string, start: nat, next: Option<nat>): (r: string)
    ensures next.Some? && 0 < next.value && start <= next.value <= |text| ==> r == text[start..next.value]
    ensures (next.None? || next == Some(0)) && start <= |text| ==> r == text[start..]
    ensures |text| <= start ==> r == []
  {
    if next.Some? && next.value != 0 then Slice(text, start, next.value) else Slice(text, start, |text|)
  }

  /** Where the text of `section` starts: just past the first occurrence
      of its marker in the lower-cased text `lower`. */
  function ContentStart(lower: string, section: string): (c: nat)
    requires Find(lower, Marker(section), 0) != -1
    ensures |Marker(section)| <= c <= |lower|
  {
    FindMeaning(lower, Marker(section), 0);
    Find(lower, Marker(section), 0) + |Marker(section)|
  }

  /** The value the handler stores for `section`, given the normalised
      reply `text` (app.py:169-186). */
  function SectionValue(text: string, sections: seq<string>, section: string): (v: string)
    ensures v == NoResponse || v == NoContent || (v != [] && !IsSpace(v[0]) && !IsSpace(v[|v| - 1]))
  {
    ValueIn(text, Lower(text), sections, section)
  }

  /** The same, with the lower-cased copy `lower` of `text` passed in, as the
      loop does with `lower_text`. */
  function ValueIn(text: string, lower: string, sections: seq<string>, section: string): (v: string)
    ensures v == NoResponse || v == NoContent || (v != [] && !IsSpace(v[0]) && !IsSpace(v[|v| - 1]))
  {
    if Find(lower, Marker(section), 0) == -1 then NoResponse
    else
      var start := ContentStart(lower, section);
      OrNoContent(Strip(SectionSlice(text, start, NextMarker(lower, sections, section, start))))
  }

  /** `part or "(no content)"` */
  function OrNoContent(part: string): (v: string)
    ensures v != []
    ensures part != [] ==> v == part
    ensures v == NoContent <==> part == [] || part == NoContent
  {
    if part == [] then NoContent else part
  }

  /** The `answers` dictionary built for the reply `aiText`. */
  function Answers(aiText: string, sections: seq<string>): (answers: map<string, string>)
    ensures answers.Keys == set s | s in sections
  {
    var text := NormalizeColons(aiText);
    map s | s in sections :: SectionValue(text, sections, s)
  }

  /** The parsing loop of app.py:164-186: normalise the colons, lower-case
      a copy, and fill `answers` one requested label at a time. */
  method ParseSections(aiText: string, sections: seq<string>) returns (answers: map<string, string>)
    ensures answers.Keys == set s | s in sections
    ensures forall s :: s in sections ==> answers[s] == SectionValue(NormalizeColons(aiText), sections, s)
    ensures answers == Answers(aiText, sections)
  {
    answers := map[];
    var text := NormalizeColons(aiText);
    var lowerText := Lower(text);
    for i := 0 to |sections|
      invariant forall s :: s in answers <==> s in sections[..i]
      invariant forall s :: s in answers ==> answers[s] == SectionValue(text, sections, s)
    {
      var section := sections[i];
      assert sections[..i + 1] == sections[..i] + [section];
      var value := ParseSection(text, lowerText, sections, section);
      answers := answers[section := value];
    }
    assert sections[..|sections|] == sections;
  }

  /** One turn of that loop (app.py:169-186) on the text and its lower-cased
      copy; the early return is the loop's `continue`. */
  method ParseSection(text: string, lowerText: string, sections: seq<string>, section: string) returns (value: string)
    ensures value == ValueIn(text, lowerText, sections, section)
  {
    var marker := Marker(section);
    var found := Find(lowerText, marker, 0);
    if found == -1 {
      return NoResponse;
    }
    var start := found + |marker|;
    assert start == ContentStart(lowerText, section);
    var nextMarker := NextMarker(lowerText, sections, section, start);
    var piece := SectionSlice(text, start, nextMarker);
    value := OrNoContent(Strip(piece));
  }

  // ---------------------------------------------------------------------
  // Where a section ends
  // ---------------------------------------------------------------------

  /** Where the section that starts at `start` ends: at `next_marker`, or
      at the end of the text. */
  function SectionEnd(lower: string, sections: seq<string>, section: string, start: nat): (e: nat)
    ensures start <= |lower| ==> start <= e
  {
    match NextMarker(lower, sections, section, start)
    case Some(p) => p
    case None => |lower|
  }

  /** The comprehension keeps exactly the hits of the other labels. */
  lemma {:induction false} OtherMarkerHitsMeaning(lower: string, sections: seq<string>, section: string, start: nat)
    ensures forall p :: p in OtherMarkerHits(lower, sections, section, start) ==>
      exists s :: s in sections && s != section && Find(lower, Marker(s), start) == p
    ensures forall s :: s in sections && s != section && Find(lower, Marker(s), start) != -1 ==>
      Find(lower, Marker(s), start) in OtherMarkerHits(lower, sections, section, start)
  {
    if sections != [] {
      OtherMarkerHitsMeaning(lower, sections[1..], section, start);
      assert forall s :: s in sections ==> s == sections[0] || s in sections[1..];
    }
  }

  /** `next_marker` is the nearest marker of another requested label at or
      after `start`, whatever order the labels were requested in; with no
      such marker the section runs to the end of the text. */
  lemma NextMarkerIsNearest(lower: string, sections: seq<string>, section: string, start: nat)
    requires start <= |lower|
    ensures IsSectionEnd(lower, sections, section, start, SectionEnd(lower, sections, section, start))
  {
    var ps := OtherMarkerHits(lower, sections, section, start);
    OtherMarkerHitsMeaning(lower, sections, section, start);
    var end := if ps == [] then |lower| else Min(ps);
    forall q, s | start <= q < end && s in sections && s != section
      ensures !OccursAt(lower, Marker(s), q)
    {
      FindMeaning(lower, Marker(s), start);
      var p := Find(lower, Marker(s), start);
      if p != -1 {
        assert p in ps;
      }
    }
    if ps != [] {
      var s :| s in sections && s != section && Find(lower, Marker(s), start) == end;
      FindMeaning(lower, Marker(s), start);
    }
  }

  /** A section ends neither before it starts nor after the text. */
  lemma SectionEndBounds(lower: string, sections: seq<string>, section: string, start: nat)
    requires start <= |lower|
    ensures start <= SectionEnd(lower, sections, section, start) <= |lower|
  {
    NextMarkerIsNearest(lower, sections, section, start);
  }

  /** At most one position is the end of a section. */
  lemma SectionEndUnique(lower: string, sections: seq<string>, section: string, start: nat, e1: nat, e2: nat)
    requires IsSectionEnd(lower, sections, section, start, e1)
    requires IsSectionEnd(lower, sections, section, start, e2)
    ensures e1 == e2
  {
    if e1 < |lower| {
      var s :| s in sections && s != section && OccursAt(lower, Marker(s), e1);
    }
    if e2 < |lower| {
      var s :| s in sections && s != section && OccursAt(lower, Marker(s), e2);
    }
  }

  /** `SectionEnd` is the only position that meets the definition of a
      section end. */
  lemma SectionEndMeaning(lower: string, sections: seq<string>, section: string, start: nat, end: nat)
    requires start <= |lower|
    ensures IsSectionEnd(lower, sections, section, start, end) <==> SectionEnd(lower, sections, section, start) == end
  {
    NextMarkerIsNearest(lower, sections, section, start);
    if IsSectionEnd(lower, sections, section, start, end) {
      SectionEndUnique(lower, sections, section, start, SectionEnd(lower, sections, section, start), end);
    }
  }

  // ---------------------------------------------------------------------
  // What each label is mapped to
  // ---------------------------------------------------------------------

  /** A label whose marker does not occur in the lower-cased text gets
      "(no response)". */
  lemma MissingMarker(text: string, sections: seq<string>, section: string)
    requires !Contains(Lower(text), Marker(section))
    ensures SectionValue(text, sections, section) == NoResponse
  {
    FindMeaning(Lower(text), Marker(section), 0);
  }

  /** What a found section's text is turned into: `part or "(no content)"`
      after stripping, stated without `strip`. */
  function ContentValue(piece: string): (v: string)
  {
    if AllSpace(piece) then NoContent else Strip(piece)
  }

  /** A label whose marker occurs gets the text between the end of its
      first marker and the end of its section, with surrounding whitespace
      removed, or "(no content)" when that text is blank. */
  lemma FoundSection(text: string, lower: string, sections: seq<string>, section: string)
    requires |lower| == |text| && Find(lower, Marker(section), 0) != -1
    ensures var start := ContentStart(lower, section);
      start <= SectionEnd(lower, sections, section, start) <= |text| &&
      ValueIn(text, lower, sections, section) == ContentValue(text[start..SectionEnd(lower, sections, section, start)])
  {
    var start := ContentStart(lower, section);
    assert start <= |lower| by {
      FindMeaning(lower, Marker(section), 0);
    }
    SectionEndBounds(lower, sections, section, start);
    var piece := text[start..SectionEnd(lower, sections, section, start)];
    assert SectionSlice(text, start, NextMarker(lower, sections, section, start)) == piece;
    StripBlank(piece);
  }

  /** The same, for any first occurrence `at` of the marker and any `end`
      that meets the definition of a section end. */
  lemma SectionBetweenMarkers(text: string, sections: seq<string>, section: string, at: nat, end: nat)
    requires OccursAt(Lower(text), Marker(section), at)
    requires forall i :: 0 <= i < at ==> !OccursAt(Lower(text), Marker(section), i)
    requires IsSectionEnd(Lower(text), sections, section, at + |Marker(section)|, end)
    ensures SectionValue(text, sections, section) == ContentValue(text[at + |Marker(section)|..end])
  {
    BetweenMarkersIn(text, Lower(text), sections, section, at, end);
  }

  lemma BetweenMarkersIn(text: string, lower: string, sections: seq<string>, section: string, at: nat, end: nat)
    requires |lower| == |text|
    requires OccursAt(lower, Marker(section), at)
    requires forall i :: 0 <= i < at ==> !OccursAt(lower, Marker(section), i)
    requires IsSectionEnd(lower, sections, section, at + |Marker(section)|, end)
    ensures ValueIn(text, lower, sections, section) == ContentValue(text[at + |Marker(section)|..end])
  {
    FindFirst(lower, Marker(section), 0, at);
    var start := ContentStart(lower, section);
    assert IsSectionEnd(lower, sections, section, start, end) by {
      assert start == at + |Marker(section)|;
    }
    SectionEndMeaning(lower, sections, section, start, end);
    FoundSection(text, lower, sections, section);
    assert text[start..end] == text[at + |Marker(section)|..end] by {
      assert start == at + |Marker(section)|;
    }
  }

  /** A value that is not a placeholder is a piece of the normalised text,
      has no whitespace at either end, and holds no marker of another
      requested label. */
  ghost predicate CleanValue(text: string, sections: seq<string>, section: string, v: string)
  {
    Contains(text, v) && v != [] && !IsSpace(v[0]) && !IsSpace(v[|v| - 1]) &&
    forall s :: s in sections && s != section ==> !Contains(Lower(v), Marker(s))
  }

  /** When the marker of `section` is found, its value is "(no content)" or
      a clean piece of the text. */
  lemma FoundValueIsCleanPiece(text: string, sections: seq<string>, section: string)
    requires Find(Lower(text), Marker(section), 0) != -1
    ensures var v := SectionValue(text, sections, section);
      v == NoContent || CleanValue(text, sections, section, v)
  {
    var lower := Lower(text);
    FoundSection(text, lower, sections, section);
    var start := ContentStart(lower, section);
    var end := SectionEnd(lower, sections, section, start);
    var piece := text[start..end];
    if !AllSpace(piece) {
      StripBlank(piece);
      NextMarkerIsNearest(lower, sections, section, start);
      CleanPieceOfSection(text, sections, section, start, end);
    }
  }

  /** The stripped text of a section is a clean piece of the text. */
  lemma CleanPieceOfSection(text: string, sections: seq<string>, section: string, start: nat, end: nat)
    requires IsSectionEnd(Lower(text), sections, section, start, end)
    requires Strip(text[start..end]) != []
    ensures CleanValue(text, sections, section, Strip(text[start..end]))
  {
    var v := Strip(text[start..end]);
    var a := StripInSlice(text, start, end);
    var b := a + |v|;
    assert OccursAt(text, v, a);
    LowerSlice(text, a, b);
    NoMarkerInsideSection(Lower(text), sections, section, start, end, a, b);
  }

  /** No piece of a section holds a marker of another requested label. */
  lemma NoMarkerInsideSection(lower: string, sections: seq<string>, section: string, start: nat, end: nat, a: nat, b: nat)
    requires IsSectionEnd(lower, sections, section, start, end)
    requires start <= a <= b <= end
    ensures forall s :: s in sections && s != section ==> !Contains(lower[a..b], Marker(s))
  {
    forall s, k | s in sections && s != section
      ensures !OccursAt(lower[a..b], Marker(s), k)
    {
      var m := Marker(s);
      OccursInSlice(lower, m, a, b, k);
      if 0 <= k && k + |m| <= b - a {
        assert !OccursAt(lower, m, a + k);
      }
    }
  }

  // ---------------------------------------------------------------------
  // Properties of the whole dictionary
  // ---------------------------------------------------------------------

  /** The value of a label depends on which labels were requested, not on
      the order they were requested in. */
  lemma SectionValueOrderIndependent(text: string, s1: seq<string>, s2: seq<string>, section: string)
    requires forall s :: s in s1 <==> s in s2
    ensures SectionValue(text, s1, section) == SectionValue(text, s2, section)
  {
    OrderIndependentIn(text, Lower(text), s1, s2, section);
  }

  lemma OrderIndependentIn(text: string, lower: string, s1: seq<string>, s2: seq<string>, section: string)
    requires |lower| == |text|
    requires forall s :: s in s1 <==> s in s2
    ensures ValueIn(text, lower, s1, section) == ValueIn(text, lower, s2, section)
  {
    if Find(lower, Marker(section), 0) != -1 {
      var start := ContentStart(lower, section);
      FoundSection(text, lower, s1, section);
      FoundSection(text, lower, s2, section);
      NextMarkerIsNearest(lower, s1, section, start);
      var end := SectionEnd(lower, s1, section, start);
      assert IsSectionEnd(lower, s2, section, start, end) by {
        if end < |lower| {
          var s :| s in s1 && s != section && OccursAt(lower, Marker(s), end);
          assert s in s2;
        }
      }
      SectionEndMeaning(lower, s2, section, start, end);
    }
  }

  /** Requesting the same labels in another order, or with repetitions,
      yields the same dictionary. */
  lemma AnswersOrderIndependent(aiText: string, s1: seq<string>, s2: seq<string>)
    requires forall s :: s in s1 <==> s in s2
    ensures Answers(aiText, s1) == Answers(aiText, s2)
  {
    forall s | s in s1
      ensures Answers(aiText, s1)[s] == Answers(aiText, s2)[s]
    {
      SectionValueOrderIndependent(NormalizeColons(aiText), s1, s2, s);
    }
  }

  /** A reply without any `**` (such as the handler's own error texts when
      the failure message holds none) maps every label to "(no response)". */
  lemma NoBoldAllNoResponse(aiText: string, sections: seq<string>)
    requires !Contains(aiText, "**")
    ensures forall s :: s in sections ==> Answers(aiText, sections)[s] == NoResponse
  {
    forall i ensures !OccursAt(aiText, "**:", i) {
      if 0 <= i && i + 3 <= |aiText| {
        assert !OccursAt(aiText, "**", i);
        assert aiText[i..i + 2] == aiText[i..i + 3][..2];
      }
    }
    NormalizeWithoutPattern(aiText);
    LowerKeepsBold(aiText);
    forall s | s in sections
      ensures Answers(aiText, sections)[s] == NoResponse
    {
      var lower, m := Lower(aiText), Marker(s);
      forall i ensures !OccursAt(lower, m, i) {
        if 0 <= i && i + |m| <= |lower| {
          assert !OccursAt(lower, "**", i);
          MarkerStartsBold(s);
          assert lower[i..i + 2] == lower[i..i + |m|][..2];
        }
      }
      MissingMarker(aiText, sections, s);
    }
  }
}
