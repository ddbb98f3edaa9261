/** The editing and display rules of the course-page block: the list of
    student representatives and its three edits, the numeric inputs, the
    partial metadata update, how representatives are shown, and the inner
    block template. Rendering, hooks and the post-meta store are not modelled. */
module CoursePage {
  import opened Wrappers
  import opened Sequences
  import opened Numbers

  datatype Representative = Representative(name: string, cid: string)

  /** The course-page metadata edited by the block. */
  datatype CoursePageMeta = CoursePageMeta(
    code: string,
    credits: real,
    homepageUrl: string,
    infoUrl: string,
    surveyUrl: string,
    studentRepresentatives: seq<Representative>,
    studyPeriods: seq<string>,
    years: seq<string>,
    programs: seq<string>,
    participantCount: real,
    elective: bool,
    comment: string)

  // ---------------------------------------------------------------------
  // Partial updates
  // ---------------------------------------------------------------------

  /** A `Partial<CoursePageMeta>`: `None` is a field the object leaves out. */
  datatype MetaPatch = MetaPatch(
    code: Option<string>,
    credits: Option<real>,
    homepageUrl: Option<string>,
    infoUrl: Option<string>,
    surveyUrl: Option<string>,
    studentRepresentatives: Option<seq<Representative>>,
    studyPeriods: Option<seq<string>>,
    years: Option<seq<string>>,
    programs: Option<seq<string>>,
    participantCount: Option<real>,
    elective: Option<bool>,
    comment: Option<string>)

  const NO_CHANGE := MetaPatch(None, None, None, None, None, None, None, None, None, None, None, None)

  /** Every field the patch gives already holds the patch's value. */
  predicate Agrees(meta: CoursePageMeta, m: MetaPatch) {
    && (m.code.Some? ==> meta.code == m.code.value)
    && (m.credits.Some? ==> meta.credits == m.credits.value)
    && (m.homepageUrl.Some? ==> meta.homepageUrl == m.homepageUrl.value)
    && (m.infoUrl.Some? ==> meta.infoUrl == m.infoUrl.value)
    && (m.surveyUrl.Some? ==> meta.surveyUrl == m.surveyUrl.value)
    && (m.studentRepresentatives.Some? ==> meta.studentRepresentatives == m.studentRepresentatives.value)
    && (m.studyPeriods.Some? ==> meta.studyPeriods == m.studyPeriods.value)
    && (m.years.Some? ==> meta.years == m.years.value)
    && (m.programs.Some? ==> meta.programs == m.programs.value)
    && (m.participantCount.Some? ==> meta.participantCount == m.participantCount.value)
    && (m.elective.Some? ==> meta.elective == m.elective.value)
    && (m.comment.Some? ==> meta.comment == m.comment.value)
  }

  /** `{ ...meta, ...m }`: every field the patch gives replaces the current
      one; every other field is kept. Afterwards the metadata agrees with
      the patch, and the update changes nothing exactly when the metadata
      agreed with it already. */
  function Merge(meta: CoursePageMeta, m: MetaPatch): (r: CoursePageMeta)
    ensures Agrees(r, m)
    ensures r == meta <==> Agrees(meta, m)
  {
    CoursePageMeta(
      m.code.GetOr(meta.code),
      m.credits.GetOr(meta.credits),
      m.homepageUrl.GetOr(meta.homepageUrl),
      m.infoUrl.GetOr(meta.infoUrl),
      m.surveyUrl.GetOr(meta.surveyUrl),
      m.studentRepresentatives.GetOr(meta.studentRepresentatives),
      m.studyPeriods.GetOr(meta.studyPeriods),
      m.years.GetOr(meta.years),
      m.programs.GetOr(meta.programs),
      m.participantCount.GetOr(meta.participantCount),
      m.elective.GetOr(meta.elective),
      m.comment.GetOr(meta.comment))
  }

  /** The patch that applies `first` and then `second`. */
  function Then(first: MetaPatch, second: MetaPatch): MetaPatch {
    MetaPatch(
      if second.code.Some? then second.code else first.code,
      if second.credits.Some? then second.credits else first.credits,
      if second.homepageUrl.Some? then second.homepageUrl else first.homepageUrl,
      if second.infoUrl.Some? then second.infoUrl else first.infoUrl,
      if second.surveyUrl.Some? then second.surveyUrl else first.surveyUrl,
      if second.studentRepresentatives.Some? then second.studentRepresentatives else first.studentRepresentatives,
      if second.studyPeriods.Some? then second.studyPeriods else first.studyPeriods,
      if second.years.Some? then second.years else first.years,
      if second.programs.Some? then second.programs else first.programs,
      if second.participantCount.Some? then second.participantCount else first.participantCount,
      if second.elective.Some? then second.elective else first.elective,
      if second.comment.Some? then second.comment else first.comment)
  }

  /** A field given by the patch takes its value; every field it leaves out
      is unchanged; the empty patch changes nothing. */
  lemma MergeFields(meta: CoursePageMeta, m: MetaPatch)
    ensures m.code.Some? ==> Merge(meta, m).code == m.code.value
    ensures m.code.None? ==> Merge(meta, m).code == meta.code
    ensures m.credits.Some? ==> Merge(meta, m).credits == m.credits.value
    ensures m.credits.None? ==> Merge(meta, m).credits == meta.credits
    ensures m.homepageUrl.Some? ==> Merge(meta, m).homepageUrl == m.homepageUrl.value
    ensures m.homepageUrl.None? ==> Merge(meta, m).homepageUrl == meta.homepageUrl
    ensures m.infoUrl.Some? ==> Merge(meta, m).infoUrl == m.infoUrl.value
    ensures m.infoUrl.None? ==> Merge(meta, m).infoUrl == meta.infoUrl
    ensures m.surveyUrl.Some? ==> Merge(meta, m).surveyUrl == m.surveyUrl.value
    ensures m.surveyUrl.None? ==> Merge(meta, m).surveyUrl == meta.surveyUrl
    ensures m.studentRepresentatives.Some? ==> Merge(meta, m).studentRepresentatives == m.studentRepresentatives.value
    ensures m.studentRepresentatives.None? ==> Merge(meta, m).studentRepresentatives == meta.studentRepresentatives
    ensures m.studyPeriods.Some? ==> Merge(meta, m).studyPeriods == m.studyPeriods.value
    ensures m.studyPeriods.None? ==> Merge(meta, m).studyPeriods == meta.studyPeriods
    ensures m.years.Some? ==> Merge(meta, m).years == m.years.value
    ensures m.years.None? ==> Merge(meta, m).years == meta.years
    ensures m.programs.Some? ==> Merge(meta, m).programs == m.programs.value
    ensures m.programs.None? ==> Merge(meta, m).programs == meta.programs
    ensures m.participantCount.Some? ==> Merge(meta, m).participantCount == m.participantCount.value
    ensures m.participantCount.None? ==> Merge(meta, m).participantCount == meta.participantCount
    ensures m.elective.Some? ==> Merge(meta, m).elective == m.elective.value
    ensures m.elective.None? ==> Merge(meta, m).elective == meta.elective
    ensures m.comment.Some? ==> Merge(meta, m).comment == m.comment.value
    ensures m.comment.None? ==> Merge(meta, m).comment == meta.comment
    ensures m == NO_CHANGE ==> Merge(meta, m) == meta
  {
  }

  /** Applying the same partial update twice is the same as applying it once. */
  lemma MergeIdempotent(meta: CoursePageMeta, m: MetaPatch)
    ensures Merge(Merge(meta, m), m) == Merge(meta, m)
  {
  }

  /** Two successive updates are one update with the later fields winning. */
  lemma MergeThen(meta: CoursePageMeta, first: MetaPatch, second: MetaPatch)
    ensures Merge(Merge(meta, first), second) == Merge(meta, Then(first, second))
  {
  }

  // ---------------------------------------------------------------------
  // Representative list edits
  // ---------------------------------------------------------------------

  /** `[...reps]`: a fresh array holding a copy of the list. */
  method CopyToArray(reps: seq<Representative>) returns (repr: array<Representative>)
    ensures fresh(repr) && repr[..] == reps
  {
    repr := new Representative[|reps|](k requires 0 <= k < |reps| => reps[k]);
  }

  /** The trash button of representative `i`: copy the list, `splice(i, 1)`
      the copy in place, and hand the copy to `updateMeta`. */
  method RemoveRepresentative(reps: seq<Representative>, i: nat) returns (r: seq<Representative>)
    ensures r == Without(reps, i)
  {
    var repr := CopyToArray(reps);
    if i < repr.Length {
      var k := i;
      while k + 1 < repr.Length
        invariant i <= k < repr.Length
        invariant forall j :: 0 <= j < i ==> repr[j] == reps[j]
        invariant forall j :: i <= j < k ==> repr[j] == reps[j + 1]
        invariant forall j :: k <= j < repr.Length ==> repr[j] == reps[j]
      {
        repr[k] := repr[k + 1];
        k := k + 1;
      }
      r := repr[..repr.Length - 1];
      assert r == reps[..i] + reps[i + 1..];
    } else {
      r := repr[..];
    }
  }

  /** The name field of representative `i`: copy the list and replace entry
      `i` by that representative with the new name. The index comes from
      the list being rendered, so it is always in range. */
  method RenameRepresentative(reps: seq<Representative>, i: nat, value: string) returns (r: seq<Representative>)
    requires i < |reps|
    ensures |r| == |reps|
    ensures r[i].name == value && r[i].cid == reps[i].cid
    ensures forall j :: 0 <= j < |reps| && j != i ==> r[j] == reps[j]
  {
    var repr := CopyToArray(reps);
    repr[i] := reps[i].(name := value);
    r := repr[..];
  }

  /** The CID field of representative `i`: as the name field, for `cid`. */
  method SetRepresentativeCid(reps: seq<Representative>, i: nat, value: string) returns (r: seq<Representative>)
    requires i < |reps|
    ensures |r| == |reps|
    ensures r[i].cid == value && r[i].name == reps[i].name
    ensures forall j :: 0 <= j < |reps| && j != i ==> r[j] == reps[j]
  {
    var repr := CopyToArray(reps);
    repr[i] := reps[i].(cid := value);
    r := repr[..];
  }

  const BLANK := Representative("", "")

  /** The "Add" button: a blank representative at the end. */
  function AddRepresentative(reps: seq<Representative>): (r: seq<Representative>)
    ensures |r| == |reps| + 1
    ensures r[..|reps|] == reps && r[|reps|] == BLANK
  {
    reps + [BLANK]
  }

  /** Removing the representative just added gives back the old list. */
  lemma RemoveUndoesAdd(reps: seq<Representative>)
    ensures Without(AddRepresentative(reps), |reps|) == reps
  {
    assert AddRepresentative(reps)[..|reps|] == reps;
  }

  // ---------------------------------------------------------------------
  // Numeric inputs
  // ---------------------------------------------------------------------

  /** `Number.isFinite(numeric) && numeric >= 0`. */
  predicate Accepted(n: JsNumber) {
    n.Finite? && n.value >= 0.0
  }

  datatype NumericField = Credits | ParticipantCount

  /** The controls' local text state; `None` until the user has typed. */
  datatype InputTexts = InputTexts(creditsText: Option<string>, participantCountText: Option<string>)

  /** The partial update carrying `v` into `field`. */
  function NumericPatch(field: NumericField, v: real): MetaPatch {
    match field
    case Credits => NO_CHANGE.(credits := Some(v))
    case ParticipantCount => NO_CHANGE.(participantCount := Some(v))
  }

  /** `onChange` of the credits and participant-count inputs: the typed text
      is always stored; `updateMeta` is called, with that one field, only
      when the parsed number is finite and non-negative. */
  function OnNumericChange(field: NumericField, texts: InputTexts, text: string, numeric: JsNumber)
    : (r: (InputTexts, Option<MetaPatch>))
    ensures field == Credits ==> r.0 == texts.(creditsText := Some(text))
    ensures field == ParticipantCount ==> r.0 == texts.(participantCountText := Some(text))
    ensures r.1.Some? <==> Accepted(numeric)
    ensures r.1.Some? ==> r.1.value == NumericPatch(field, numeric.value)
  {
    var texts' := match field
      case Credits => texts.(creditsText := Some(text))
      case ParticipantCount => texts.(participantCountText := Some(text));
    (texts', if Accepted(numeric) then Some(NumericPatch(field, numeric.value)) else None)
  }

  /** What an input shows: the typed text once there is one, else the
      stored number. */
  datatype FieldValue = Typed(text: string) | Stored(number: real)

  function ShownValue(field: NumericField, texts: InputTexts, meta: CoursePageMeta): (r: FieldValue)
    ensures r.Typed? <==> (if field == Credits then texts.creditsText else texts.participantCountText).Some?
    ensures r.Typed? ==> Some(r.text) == (if field == Credits then texts.creditsText else texts.participantCountText)
    ensures r.Stored? ==> r.number == (if field == Credits then meta.credits else meta.participantCount)
  {
    match field
    case Credits => if texts.creditsText.Some? then Typed(texts.creditsText.value) else Stored(meta.credits)
    case ParticipantCount =>
      if texts.participantCountText.Some? then Typed(texts.participantCountText.value) else Stored(meta.participantCount)
  }

  predicate NonNegativeNumbers(meta: CoursePageMeta) {
    meta.credits >= 0.0 && meta.participantCount >= 0.0
  }

  /** After any edit of a numeric input, the input shows exactly what was
      typed, the metadata still has non-negative numbers if it had them
      before, and nothing but the edited field can have changed. */
  lemma NumericChangeKeepsInvariant(
      field: NumericField, texts: InputTexts, meta: CoursePageMeta, text: string, numeric: JsNumber)
    requires NonNegativeNumbers(meta)
    ensures var (texts', patch) := OnNumericChange(field, texts, text, numeric);
            var meta' := if patch.Some? then Merge(meta, patch.value) else meta;
            && ShownValue(field, texts', meta') == Typed(text)
            && NonNegativeNumbers(meta')
            && (field == Credits ==> meta' == meta.(credits := meta'.credits))
            && (field == ParticipantCount ==> meta' == meta.(participantCount := meta'.participantCount))
            && (!Accepted(numeric) ==> meta' == meta)
  {
    var (texts', patch) := OnNumericChange(field, texts, text, numeric);
    if patch.Some? {
      MergeFields(meta, patch.value);
    }
  }

  // ---------------------------------------------------------------------
  // Displaying representatives
  // ---------------------------------------------------------------------

  /** A representative is shown when it has a name or a CID. */
  predicate Identified(r: Representative) {
    r.name != "" || r.cid != ""
  }

  const MAIL_DOMAIN := "@student.chalmers.se"

  /** One list item: the text shown, and the mail link if there is one. */
  datatype RepresentativeItem = RepresentativeItem(text: string, mailto: Option<string>)

  /** `repr.name || repr.cid`, linked to the student mailbox when there is a CID. */
  function ItemOf(rep: Representative): (item: RepresentativeItem)
    ensures rep.name != "" ==> item.text == rep.name
    ensures rep.name == "" ==> item.text == rep.cid
    ensures Identified(rep) ==> item.text != ""
    ensures item.mailto.Some? <==> rep.cid != ""
    ensures item.mailto.Some? ==> item.mailto.value == "mailto:" + rep.cid + MAIL_DOMAIN
  {
    RepresentativeItem(
      if rep.name != "" then rep.name else rep.cid,
      if rep.cid != "" then Some("mailto:" + rep.cid + MAIL_DOMAIN) else None)
  }

  /** The "Student Representatives" section: absent when nobody is
      identified; otherwise one item per identified representative, in order. */
  function RepresentativesSection(reps: seq<Representative>): (r: Option<seq<RepresentativeItem>>)
    ensures r.None? <==> forall k :: 0 <= k < |reps| ==> !Identified(reps[k])
    ensures r.Some? ==> var shown := Filter(Identified, reps);
                        |r.value| == |shown|
                        && forall k :: 0 <= k < |shown| ==> r.value[k] == ItemOf(shown[k]) && r.value[k].text != ""
  {
    var shown := Filter(Identified, reps);
    assert shown == [] <==> forall k :: 0 <= k < |reps| ==> !Identified(reps[k]) by {
      if shown != [] {
        assert shown[0] in reps && Identified(shown[0]);
      }
      if exists k :: 0 <= k < |reps| && Identified(reps[k]) {
        var k :| 0 <= k < |reps| && Identified(reps[k]);
        assert reps[k] in shown;
      }
    }
    if shown == [] then None
    else Some(seq(|shown|, k requires 0 <= k < |shown| => ItemOf(shown[k])))
  }

  /** Blank rows added with "Add" never show up. */
  lemma {:induction false} BlankRowsHidden(reps: seq<Representative>)
    ensures Filter(Identified, AddRepresentative(reps)) == Filter(Identified, reps)
  {
    FilterConcat(Identified, reps, [BLANK]);
    assert Filter(Identified, [BLANK]) == [];
  }

  // ---------------------------------------------------------------------
  // Inner block template
  // ---------------------------------------------------------------------

  datatype TemplateBlock =
    | Heading(content: string, level: nat)
    | Paragraph(placeholder: string)
    | DriveList(depth: nat, download: bool, collapsible: bool)

  /** The description heading and paragraph, then the documents heading
      and drive list only when the drive-list block type is registered. */
  function InnerBlocksTemplate(hasDriveList: bool): (r: seq<TemplateBlock>)
    ensures |r| == if hasDriveList then 4 else 2
    ensures r[..2] == [Heading("Description", 3), Paragraph("Description goes here.")]
    ensures hasDriveList ==> r[2..] == [Heading("Documents", 3), DriveList(2, true, true)]
    ensures (exists k :: 0 <= k < |r| && r[k].DriveList?) <==> hasDriveList
  {
    var r := [Heading("Description", 3), Paragraph("Description goes here.")]
      + (if hasDriveList then [Heading("Documents", 3), DriveList(2, true, true)] else []);
    assert hasDriveList ==> r[3].DriveList?;
    r
  }

  /** The template without the drive list is a prefix of the one with it.
      A corollary of `InnerBlocksTemplate`'s contract, stated for the reader. */
  lemma TemplatePrefix()
    ensures InnerBlocksTemplate(false) == InnerBlocksTemplate(true)[..2]
  {
  }
}
