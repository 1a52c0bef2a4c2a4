/** `FormFile`: the aggregate built from the decoded sections, and the texture
    page lookup through it. */
module Form {
  import opened BoundedInts
  import opened Wrappers
  import opened IndirectTable
  import opened Sections
  import AudoSection
  import StrgSection
  import SondSection
  import TxtrSection
  import TpagSection
  import SprtSection
  import FontSection

  /** The fields of a `FormFile`, as a value. `textures` is the number of
      texture slots, each an image that is loaded on first use. */
  datatype Aggregate = Aggregate(
    audos: seq<AudoSection.Audo>,
    strg: Option<StrgSection.Strg>,
    sond: Option<SondSection.Sond>,
    txtr: Option<TxtrSection.Txtr>,
    tpag: Option<TpagSection.Tpag>,
    sprt: Option<SprtSection.Sprt>,
    font: Option<FontSection.Font>,
    textures: nat)

  /** `FormFile::default()`. */
  const EMPTY: Aggregate := Aggregate([], None, None, None, None, None, None, 0)

  /** One turn of the loop in `from_sections`: an AUDO is appended, the other
      decoded kinds replace their slot (a TXTR also resets the texture slots to
      one per file), and GEN8 and `Unk` are dropped. */
  function Absorb(a: Aggregate, s: Section): Aggregate {
    match s
    case Audo(audo) => a.(audos := a.audos + [audo])
    case Strg(strg) => a.(strg := Some(strg))
    case Sond(sond) => a.(sond := Some(sond))
    case Txtr(txtr) => a.(textures := |txtr.records|, txtr := Some(txtr))
    case Tpag(tpag) => a.(tpag := Some(tpag))
    case Sprt(sprt) => a.(sprt := Some(sprt))
    case Font(font) => a.(font := Some(font))
    case _ => a
  }

  /** The aggregate after absorbing `sections` in order into the default. */
  function Assemble(sections: seq<Section>): Aggregate
    decreases |sections|
  {
    if |sections| == 0 then EMPTY
    else Absorb(Assemble(sections[..|sections| - 1]), sections[|sections| - 1])
  }

  /** The AUDO sections of the list, in list order. */
  function AudosIn(sections: seq<Section>): seq<AudoSection.Audo>
    decreases |sections|
  {
    if |sections| == 0 then []
    else (if sections[0].Audo? then [sections[0].audo] else []) + AudosIn(sections[1..])
  }

  /** The value that `pick` finds in the last section where it finds one. */
  function LastPick<T>(sections: seq<Section>, pick: Section -> Option<T>): Option<T>
    decreases |sections|
  {
    if |sections| == 0 then None
    else if pick(sections[|sections| - 1]).Some? then pick(sections[|sections| - 1])
    else LastPick(sections[..|sections| - 1], pick)
  }

  function StrgOf(s: Section): Option<StrgSection.Strg> {
    if s.Strg? then Some(s.strg) else None
  }

  function SondOf(s: Section): Option<SondSection.Sond> {
    if s.Sond? then Some(s.sond) else None
  }

  function TxtrOf(s: Section): Option<TxtrSection.Txtr> {
    if s.Txtr? then Some(s.txtr) else None
  }

  function TpagOf(s: Section): Option<TpagSection.Tpag> {
    if s.Tpag? then Some(s.tpag) else None
  }

  function SprtOf(s: Section): Option<SprtSection.Sprt> {
    if s.Sprt? then Some(s.sprt) else None
  }

  function FontOf(s: Section): Option<FontSection.Font> {
    if s.Font? then Some(s.font) else None
  }

  /** `LastPick` is what its name says: nothing when `pick` finds nothing in
      any section, otherwise the value found at an index after which `pick`
      finds nothing. */
  lemma {:induction false} LastPickIsLast<T>(sections: seq<Section>, pick: Section -> Option<T>)
    ensures LastPick(sections, pick).None? <==> forall j :: 0 <= j < |sections| ==> pick(sections[j]).None?
    ensures LastPick(sections, pick).Some? ==>
      exists j ::
        && 0 <= j < |sections| && pick(sections[j]) == LastPick(sections, pick)
        && forall m :: j < m < |sections| ==> pick(sections[m]).None?
    decreases |sections|
  {
    if |sections| > 0 {
      var n := |sections| - 1;
      var init := sections[..n];
      LastPickIsLast(init, pick);
      assert forall j :: 0 <= j < n ==> init[j] == sections[j];
      if pick(sections[n]).None? && LastPick(init, pick).Some? {
        var j :| 0 <= j < n && pick(init[j]) == LastPick(init, pick)
          && forall m :: j < m < n ==> pick(init[m]).None?;
        assert pick(sections[j]) == LastPick(sections, pick);
      }
    }
  }

  /** AUDO sections found after a prefix are appended after its AUDOs. */
  lemma {:induction false} AudosInSnoc(sections: seq<Section>, s: Section)
    ensures AudosIn(sections + [s]) == AudosIn(sections) + (if s.Audo? then [s.audo] else [])
    decreases |sections|
  {
    if |sections| > 0 {
      assert (sections + [s])[1..] == sections[1..] + [s];
      AudosInSnoc(sections[1..], s);
    }
  }

  /** One absorbed section changes only the slot of its own kind. */
  lemma AbsorbSlots(a: Aggregate, s: Section)
    ensures Absorb(a, s).audos == a.audos + (if s.Audo? then [s.audo] else [])
    ensures Absorb(a, s).strg == if StrgOf(s).Some? then StrgOf(s) else a.strg
    ensures Absorb(a, s).sond == if SondOf(s).Some? then SondOf(s) else a.sond
    ensures Absorb(a, s).txtr == if TxtrOf(s).Some? then TxtrOf(s) else a.txtr
    ensures Absorb(a, s).tpag == if TpagOf(s).Some? then TpagOf(s) else a.tpag
    ensures Absorb(a, s).sprt == if SprtOf(s).Some? then SprtOf(s) else a.sprt
    ensures Absorb(a, s).font == if FontOf(s).Some? then FontOf(s) else a.font
    ensures Absorb(a, s).textures == if s.Txtr? then |s.txtr.records| else a.textures
  {
  }

  /** What `from_sections` builds: every AUDO in list order; in each other
      decoded slot the last section of that kind; one texture slot per file of
      the last TXTR, or none without one. */
  lemma {:induction false} AssembleFields(sections: seq<Section>)
    ensures Assemble(sections).audos == AudosIn(sections)
    ensures Assemble(sections).strg == LastPick(sections, StrgOf)
    ensures Assemble(sections).sond == LastPick(sections, SondOf)
    ensures Assemble(sections).txtr == LastPick(sections, TxtrOf)
    ensures Assemble(sections).tpag == LastPick(sections, TpagOf)
    ensures Assemble(sections).sprt == LastPick(sections, SprtOf)
    ensures Assemble(sections).font == LastPick(sections, FontOf)
    ensures Assemble(sections).textures ==
      if Assemble(sections).txtr.Some? then |Assemble(sections).txtr.value.records| else 0
    decreases |sections|
  {
    if |sections| > 0 {
      var n := |sections| - 1;
      AssembleFields(sections[..n]);
      AbsorbSlots(Assemble(sections[..n]), sections[n]);
      assert sections[..n] + [sections[n]] == sections;
      AudosInSnoc(sections[..n], sections[n]);
    }
  }

  /** `FormFile`. */
  class FormFile {
    var audos: seq<AudoSection.Audo>
    var strg: Option<StrgSection.Strg>
    var sond: Option<SondSection.Sond>
    var txtr: Option<TxtrSection.Txtr>
    var tpag: Option<TpagSection.Tpag>
    var sprt: Option<SprtSection.Sprt>
    var font: Option<FontSection.Font>
    var textures: nat

    /** The fields as a value. */
    function State(): Aggregate
      reads this
    {
      Aggregate(audos, strg, sond, txtr, tpag, sprt, font, textures)
    }

    /** `FormFile::default()`: no sections and no texture slots. */
    constructor ()
      ensures State() == EMPTY
    {
      audos, strg, sond, txtr, tpag, sprt, font, textures := [], None, None, None, None, None, None, 0;
    }

    /** `from_sections`: the sections are absorbed in list order. */
    static method FromSections(sections: seq<Section>) returns (file: FormFile)
      ensures fresh(file)
      ensures file.State() == Assemble(sections)
    {
      file := new FormFile();
      for k := 0 to |sections|
        invariant file.State() == Assemble(sections[..k])
      {
        assert sections[..k + 1][..k] == sections[..k];
        match sections[k]
        case Audo(audo) => file.audos := file.audos + [audo];
        case Strg(strg) => file.strg := Some(strg);
        case Sond(sond) => file.sond := Some(sond);
        case Txtr(txtr) =>
          file.textures := |txtr.records|;
          file.txtr := Some(txtr);
        case Tpag(tpag) => file.tpag := Some(tpag);
        case Sprt(sprt) => file.sprt := Some(sprt);
        case Font(font) => file.font := Some(font);
        case _ =>
      }
      assert sections[..|sections|] == sections;
    }

    /** `get_tpag_info(loc)`: the sprite bounds and texture index of the texture
        page entry that `locations` names for `loc`. The `unwrap`s and the
        index panic unless a TPAG is present, `loc` is a key, and its index
        names an entry. */
    function TpagInfo(loc: uint32): (r: (TpagSection.Rect16, nat))
      reads this
      requires tpag.Some? && loc in tpag.value.locations
      requires tpag.value.locations[loc] < |tpag.value.records|
      ensures WellFormed(tpag.value) ==>
        var e := Get(tpag.value, loc).value;
        r == (e.spriteBounds, e.textureIndex as nat)
      ensures r.1 < TWO_TO_THE_16
    {
      var e := tpag.value.records[tpag.value.locations[loc]];
      (e.spriteBounds, e.textureIndex as nat)
    }
  }

  /** After `from_sections`, the TPAG that `get_tpag_info` reads is the last
      TPAG section of the list. */
  lemma TpagIsLastTpag(sections: seq<Section>)
    requires Assemble(sections).tpag.Some?
    ensures exists j ::
      && 0 <= j < |sections| && sections[j] == Tpag(Assemble(sections).tpag.value)
      && forall m :: j < m < |sections| ==> !sections[m].Tpag?
  {
    AssembleFields(sections);
    LastPickIsLast(sections, TpagOf);
    var j :| 0 <= j < |sections| && TpagOf(sections[j]) == LastPick(sections, TpagOf)
      && forall m :: j < m < |sections| ==> TpagOf(sections[m]).None?;
    assert sections[j] == Tpag(Assemble(sections).tpag.value);
  }
}
