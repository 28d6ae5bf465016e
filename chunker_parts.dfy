/**
 * What the block loop of `Chunker.chunk` builds for one page: the body texts it keeps,
 * where `## <section>` markers go, and when the assembled page text is empty.
 */
module ChunkerParts {
  import opened Wrappers
  import opened Text
  import opened Schemas
  import opened Normalization
  import opened Chunker

  /** The body texts of `ps`, in order. */
  function Bodies(ps: seq<Part>): seq<string>
    decreases |ps|
  {
    if ps == [] then []
    else
      var p := ps[|ps| - 1];
      if p.Body? then Bodies(ps[..|ps| - 1]) + [p.text] else Bodies(ps[..|ps| - 1])
  }

  /** The normalised texts of the blocks whose text does not normalise to the empty string, in order. */
  function BlockTexts(blocks: seq<TextBlock>): seq<string>
    decreases |blocks|
  {
    if blocks == [] then []
    else
      var t := Normalize(blocks[|blocks| - 1].text);
      if t != [] then BlockTexts(blocks[..|blocks| - 1]) + [t] else BlockTexts(blocks[..|blocks| - 1])
  }

  /** The heading of the last marker in `ps`, if there is one. */
  function LastMarker(ps: seq<Part>): Option<string>
    decreases |ps|
  {
    if ps == [] then None
    else if ps[|ps| - 1].Marker? then Some(ps[|ps| - 1].heading)
    else LastMarker(ps[..|ps| - 1])
  }

  /**
   * Every marker has a non-empty normalised heading, is directly followed by the body of
   * the block that carries that section, and repeats no heading it follows directly.
   */
  predicate MarkersWellPlaced(ps: seq<Part>) {
    forall i | 0 <= i < |ps| && ps[i].Marker? ::
      && ps[i].heading != []
      && IsNormal(ps[i].heading)
      && i + 1 < |ps|
      && ps[i + 1].Body?
      && ps[i + 1].section == Some(ps[i].heading)
      && LastMarker(ps[..i]) != Some(ps[i].heading)
  }

  /** A body whose block has a non-empty section sits under the marker for that section. */
  predicate BodiesUnderTheirSection(ps: seq<Part>) {
    forall i | 0 <= i < |ps| && ps[i].Body? && ps[i].section.Some? && ps[i].section.value != [] ::
      LastMarker(ps[..i]) == ps[i].section
  }

  /** Every body is non-empty normalised text. */
  predicate BodiesNormal(ps: seq<Part>) {
    forall i | 0 <= i < |ps| && ps[i].Body? :: ps[i].text != [] && IsNormal(ps[i].text)
  }

  predicate PartsShape(ps: seq<Part>) {
    MarkersWellPlaced(ps) && BodiesUnderTheirSection(ps) && BodiesNormal(ps)
  }

  lemma SnocPrefix(ps: seq<Part>, p: Part)
    ensures LastMarker(ps + [p]) == if p.Marker? then Some(p.heading) else LastMarker(ps)
  {
    assert (ps + [p])[..|ps|] == ps;
  }

  lemma BodiesSnoc(ps: seq<Part>, p: Part)
    ensures Bodies(ps + [p]) == if p.Body? then Bodies(ps) + [p.text] else Bodies(ps)
  {
    assert (ps + [p])[..|ps|] == ps;
  }

  lemma MarkersSnocBody(ps: seq<Part>, p: Part)
    requires MarkersWellPlaced(ps) && p.Body?
    ensures MarkersWellPlaced(ps + [p])
  {
    var qs := ps + [p];
    forall i | 0 <= i < |qs| && qs[i].Marker?
      ensures qs[i].heading != [] && IsNormal(qs[i].heading) && i + 1 < |qs| && qs[i + 1].Body?
        && qs[i + 1].section == Some(qs[i].heading) && LastMarker(qs[..i]) != Some(qs[i].heading)
    {
      assert i < |ps|;
      assert qs[i] == ps[i];
      assert qs[..i] == ps[..i];
      if i + 1 < |ps| {
        assert qs[i + 1] == ps[i + 1];
      }
    }
  }

  /** A marker appended after a body or at the start, followed by its body. */
  lemma MarkersSnocMarker(ps: seq<Part>, m: Part, b: Part)
    requires MarkersWellPlaced(ps) && m.Marker? && b.Body? && b.section == Some(m.heading)
    requires ps != [] ==> ps[|ps| - 1].Body?
    requires m.heading != [] && IsNormal(m.heading) && LastMarker(ps) != Some(m.heading)
    ensures MarkersWellPlaced(ps + [m] + [b])
  {
    var rs := ps + [m] + [b];
    forall i | 0 <= i < |rs| && rs[i].Marker?
      ensures rs[i].heading != [] && IsNormal(rs[i].heading) && i + 1 < |rs| && rs[i + 1].Body?
        && rs[i + 1].section == Some(rs[i].heading) && LastMarker(rs[..i]) != Some(rs[i].heading)
    {
      if i < |ps| {
        assert rs[i] == ps[i];
        assert rs[..i] == ps[..i];
        if i + 1 < |ps| {
          assert rs[i + 1] == ps[i + 1];
        }
      } else {
        assert i == |ps|;
        assert rs[..i] == ps;
      }
    }
  }

  lemma SectionsSnoc(ps: seq<Part>, p: Part)
    requires BodiesUnderTheirSection(ps)
    requires p.Body? && p.section.Some? && p.section.value != [] ==> LastMarker(ps) == p.section
    ensures BodiesUnderTheirSection(ps + [p])
  {
    var qs := ps + [p];
    SnocPrefix(ps, p);
    forall i | 0 <= i < |qs| && qs[i].Body? && qs[i].section.Some? && qs[i].section.value != []
      ensures LastMarker(qs[..i]) == qs[i].section
    {
      if i < |ps| {
        assert qs[i] == ps[i];
        assert qs[..i] == ps[..i];
      } else {
        assert qs[..i] == ps;
      }
    }
  }

  lemma NormalSnoc(ps: seq<Part>, p: Part)
    requires BodiesNormal(ps)
    requires p.Body? ==> p.text != [] && IsNormal(p.text)
    ensures BodiesNormal(ps + [p])
  {
    var qs := ps + [p];
    forall i | 0 <= i < |qs| && qs[i].Body? ensures qs[i].text != [] && IsNormal(qs[i].text) {
      if i < |ps| {
        assert qs[i] == ps[i];
      }
    }
  }

  predicate StateShape(st: (seq<Part>, Option<string>)) {
    && PartsShape(st.0)
    && (st.0 != [] ==> st.0[|st.0| - 1].Body?)
    && st.1 == LastMarker(st.0)
  }

  /** One round of the block loop keeps the shape. */
  lemma PartsStepShape(st: (seq<Part>, Option<string>), b: TextBlock)
    requires StateShape(st)
    ensures StateShape(PartsStep(st, b))
  {
    var txt := Normalize(b.text);
    if txt != [] {
      NormalizeIsNormal(b.text);
      var sec := BlockSection(b);
      if sec.Some? && sec.value != [] && st.1 != sec {
        NormalizeIsNormal(b.section.value);
        ShapeAfterMarker(st.0, Marker(sec.value), Body(txt, sec));
      } else {
        ShapeAfterBody(st.0, Body(txt, sec));
      }
    }
  }

  lemma ShapeAfterMarker(ps: seq<Part>, m: Part, body: Part)
    requires PartsShape(ps) && (ps != [] ==> ps[|ps| - 1].Body?)
    requires m.Marker? && m.heading != [] && IsNormal(m.heading) && LastMarker(ps) != Some(m.heading)
    requires body.Body? && body.section == Some(m.heading) && body.text != [] && IsNormal(body.text)
    ensures StateShape((ps + [m] + [body], Some(m.heading)))
  {
    MarkersSnocMarker(ps, m, body);
    SectionsSnoc(ps, m);
    SnocPrefix(ps, m);
    SectionsSnoc(ps + [m], body);
    SnocPrefix(ps + [m], body);
    NormalSnoc(ps, m);
    NormalSnoc(ps + [m], body);
  }

  lemma ShapeAfterBody(ps: seq<Part>, body: Part)
    requires PartsShape(ps) && (ps != [] ==> ps[|ps| - 1].Body?)
    requires body.Body? && body.text != [] && IsNormal(body.text)
    requires body.section.Some? && body.section.value != [] ==> LastMarker(ps) == body.section
    ensures StateShape((ps + [body], LastMarker(ps)))
  {
    MarkersSnocBody(ps, body);
    SectionsSnoc(ps, body);
    NormalSnoc(ps, body);
    SnocPrefix(ps, body);
  }

  /** The shape of `parts` after the block loop, and that `last_section` is the last marker. */
  lemma {:induction false} PartsStateShape(blocks: seq<TextBlock>)
    ensures StateShape(PartsState(blocks))
    decreases |blocks|
  {
    if blocks != [] {
      PartsStateShape(blocks[..|blocks| - 1]);
      PartsStepShape(PartsState(blocks[..|blocks| - 1]), blocks[|blocks| - 1]);
    }
  }

  lemma PartsStepBodies(st: (seq<Part>, Option<string>), b: TextBlock)
    ensures Bodies(PartsStep(st, b).0) == if Normalize(b.text) != [] then Bodies(st.0) + [Normalize(b.text)] else Bodies(st.0)
  {
    var ps := st.0;
    var txt := Normalize(b.text);
    if txt != [] {
      var sec := BlockSection(b);
      var body := Body(txt, sec);
      if sec.Some? && sec.value != [] && st.1 != sec {
        var m := Marker(sec.value);
        assert PartsStep(st, b).0 == ps + [m] + [body];
        BodiesSnoc(ps, m);
        BodiesSnoc(ps + [m], body);
      } else {
        assert PartsStep(st, b).0 == ps + [body];
        BodiesSnoc(ps, body);
      }
    }
  }

  /**
   * The bodies of a page's parts are exactly the normalised non-empty block texts, in
   * block order: a block whose text normalises to the empty string contributes nothing,
   * not even a marker.
   */
  lemma {:induction false} PagePartsBodies(blocks: seq<TextBlock>)
    ensures Bodies(PageParts(blocks)) == BlockTexts(blocks)
    decreases |blocks|
  {
    if blocks != [] {
      PagePartsBodies(blocks[..|blocks| - 1]);
      PartsStepBodies(PartsState(blocks[..|blocks| - 1]), blocks[|blocks| - 1]);
    }
  }

  /** The page's parts: well-placed markers, sectioned bodies, and bodies that are the block texts. */
  lemma PagePartsShape(blocks: seq<TextBlock>)
    ensures PartsShape(PageParts(blocks))
    ensures Bodies(PageParts(blocks)) == BlockTexts(blocks)
  {
    PartsStateShape(blocks);
    PagePartsBodies(blocks);
  }

  lemma JoinPrefix(parts: seq<string>, sep: string)
    requires parts != []
    ensures |parts[0]| <= |Join(parts, sep)| && Join(parts, sep)[..|parts[0]|] == parts[0]
  {
  }

  lemma RenderAllFirst(ps: seq<Part>)
    requires ps != []
    ensures RenderAll(ps) != [] && RenderAll(ps)[0] == Render(ps[0])
    decreases |ps|
  {
    if |ps| > 1 {
      RenderAllFirst(ps[..|ps| - 1]);
    }
  }

  lemma LastBodyCounts(ps: seq<Part>)
    requires ps != [] && ps[|ps| - 1].Body?
    ensures Bodies(ps) != []
  {
  }

  lemma RenderedHasText(ps: seq<Part>)
    requires ps != [] && BodiesNormal(ps)
    ensures HasText(Join(RenderAll(ps), "\n\n"))
  {
    RenderAllFirst(ps);
    var rendered := RenderAll(ps);
    var first := rendered[0];
    assert first != [] && !IsSpace(first[0]) by {
      if ps[0].Body? {
        assert ps[0].text != [] && IsNormal(ps[0].text);
      } else {
        assert first == "## " + ps[0].heading;
      }
    }
    JoinPrefix(rendered, "\n\n");
    var joined := Join(rendered, "\n\n");
    assert joined[..|first|][0] == joined[0];
    assert !IsSpace(joined[0]);
  }

  /**
   * The assembled page text is empty exactly when no block of the page has text left
   * after normalising; only then is the page skipped without consulting the splitter.
   */
  lemma PageTextEmptyIff(blocks: seq<TextBlock>)
    ensures PageText(blocks) == [] <==> BlockTexts(blocks) == []
  {
    var ps := PageParts(blocks);
    PartsStateShape(blocks);
    PagePartsBodies(blocks);
    if ps == [] {
      assert RenderAll(ps) == [];
      assert Join(RenderAll(ps), "\n\n") == [];
    } else {
      LastBodyCounts(ps);
      RenderedHasText(ps);
      StripKeepsText(Join(RenderAll(ps), "\n\n"));
    }
  }
}
