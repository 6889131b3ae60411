/**
 * The intersection-grouping tool: validation of requested light IDs against
 * the light table, the reading of one comma-separated answer, the re-prompt
 * loop over answers, the group identifier built from the name and the local
 * time, and the update that puts the selected lights into the group.
 */
module Intersections {
  import opened Options
  import opened Text

  /** A row of the light table, keyed by light id; an ungrouped light's `intersectionId` is "UNGROUPED". */
  datatype Light = Light(name: string, location: string, intersectionId: string)

  type Table = map<int, Light>

  /** Result of validate_light_ids: the verdict and the set of requested IDs found. */
  datatype Validation = Validation(valid: bool, validIds: set<int>)

  predicate Distinct(ids: seq<int>) {
    forall i, j | 0 <= i < j < |ids| :: ids[i] != ids[j]
  }

  /** A selection the tool accepts: every ID names a light of the table and none is repeated. */
  predicate ValidSelection(table: Table, ids: seq<int>) {
    (forall id | id in ids :: id in table) && Distinct(ids)
  }

  function Elements(ids: seq<int>): set<int> {
    set id | id in ids
  }

  /** Appending a value keeps a list free of repeats exactly when the value is new. */
  lemma DistinctSnoc(p: seq<int>, x: int)
    ensures Distinct(p + [x]) <==> Distinct(p) && x !in p
  {
    var q := p + [x];
    if Distinct(q) {
      forall i, j | 0 <= i < j < |p| ensures p[i] != p[j] {
        assert q[i] == p[i] && q[j] == p[j];
      }
      forall j | 0 <= j < |p| ensures p[j] != x {
        assert q[j] == p[j] && q[|p|] == x;
      }
    }
    if Distinct(p) && x !in p {
      forall i, j | 0 <= i < j < |q| ensures q[i] != q[j] {
        if j < |p| {
          assert q[i] == p[i] && q[j] == p[j];
        } else {
          assert q[i] == p[i];
        }
      }
    }
  }

  /** A list has at least as many entries as distinct values, and as many exactly when no value repeats. */
  lemma {:induction false} ElementsCount(ids: seq<int>)
    ensures |Elements(ids)| <= |ids|
    ensures |Elements(ids)| == |ids| <==> Distinct(ids)
    decreases |ids|
  {
    if ids != [] {
      var p, x := ids[..|ids| - 1], ids[|ids| - 1];
      assert ids == p + [x];
      ElementsCount(p);
      DistinctSnoc(p, x);
      assert Elements(ids) == Elements(p) + {x};
      if x in p {
        assert x in Elements(p);
      } else {
        assert x !in Elements(p);
      }
    }
  }

  /**
   * validate_light_ids: the valid IDs are the requested IDs present in the
   * table; the request is valid when there are as many of them as requested
   * entries, that is, exactly when every ID exists and none is repeated.
   */
  function ValidateLightIds(table: Table, ids: seq<int>): (r: Validation)
    ensures forall id :: id in r.validIds <==> id in ids && id in table
    ensures r.valid <==> ValidSelection(table, ids)
  {
    var found := set id | id in ids && id in table;
    FoundCount(table, ids);
    Validation(|found| == |ids|, found)
  }

  /** As many requested IDs are found as requested entries exactly when all exist and none repeats. */
  lemma FoundCount(table: Table, ids: seq<int>)
    ensures var found := set id | id in ids && id in table;
      |found| == |ids| <==> ValidSelection(table, ids)
  {
    var found := set id | id in ids && id in table;
    ElementsCount(ids);
    if forall id | id in ids :: id in table {
      assert found == Elements(ids);
    } else {
      var missing :| missing in ids && missing !in table;
      var others := Elements(ids) - {missing};
      assert Elements(ids) == others + {missing};
      assert found <= others;
      SubsetCount(found, others);
    }
  }

  lemma SubsetCount(a: set<int>, b: set<int>)
    requires a <= b
    ensures |a| <= |b|
  {
    assert b == a + (b - a);
    assert a * (b - a) == {};
  }

  /** The IDs reported as invalid: the requested ones minus the valid ones. */
  function InvalidIds(ids: seq<int>, validIds: set<int>): set<int> {
    Elements(ids) - validIds
  }

  /** The reported IDs are exactly the requested IDs missing from the table. */
  lemma InvalidIdsAreMissing(table: Table, ids: seq<int>)
    ensures forall id :: id in InvalidIds(ids, ValidateLightIds(table, ids).validIds) <==> id in ids && id !in table
  {
  }

  /**
   * A request that repeats an existing ID is refused although no ID is
   * reported as invalid.
   */
  lemma RepeatRefusedWithNothingReported(table: Table, ids: seq<int>)
    requires forall id | id in ids :: id in table
    requires !Distinct(ids)
    ensures !ValidateLightIds(table, ids).valid
    ensures InvalidIds(ids, ValidateLightIds(table, ids).validIds) == {}
  {
    InvalidIdsAreMissing(table, ids);
    var invalid := InvalidIds(ids, ValidateLightIds(table, ids).validIds);
    assert forall id :: id !in invalid;
  }

  /** One comma-separated item: `int(item.strip())`, None where it raises ValueError. */
  function ParseItem(item: string): Option<int> {
    ParseInt(Strip(item))
  }

  /** `[parse(item) for item in items]`, None as soon as one item fails. */
  function ParseEach(items: seq<string>, parse: string -> Option<int>): (r: Option<seq<int>>)
    ensures r.Some? ==> |r.value| == |items|
  {
    if items == [] then Some([])
    else
      match (parse(items[0]), ParseEach(items[1..], parse))
      case (Some(id), Some(rest)) => Some([id] + rest)
      case _ => None
  }

  /**
   * The list is produced exactly when every item parses, and then holds the
   * value of each item at its position.
   */
  lemma {:induction false} ParseEachValues(items: seq<string>, parse: string -> Option<int>)
    ensures ParseEach(items, parse).Some? <==> forall i | 0 <= i < |items| :: parse(items[i]).Some?
    ensures ParseEach(items, parse).Some? ==>
              forall i | 0 <= i < |items| :: parse(items[i]) == Some(ParseEach(items, parse).value[i])
    decreases |items|
  {
    if items != [] {
      ParseEachValues(items[1..], parse);
      assert forall i | 1 <= i < |items| :: items[i] == items[1..][i - 1];
    }
  }

  /** Items that each parse to the corresponding ID give back the IDs. */
  lemma {:induction false} ParseEachOf(items: seq<string>, parse: string -> Option<int>, ids: seq<int>)
    requires |items| == |ids|
    requires forall i | 0 <= i < |items| :: parse(items[i]) == Some(ids[i])
    ensures ParseEach(items, parse) == Some(ids)
    decreases |items|
  {
    if items != [] {
      assert forall i | 0 <= i < |items| - 1 :: items[1..][i] == items[i + 1] && ids[1..][i] == ids[i + 1];
      ParseEachOf(items[1..], parse, ids[1..]);
      assert ids == [ids[0]] + ids[1..];
    }
  }

  /** Bounds of SQLite's INTEGER, a signed 64-bit value. */
  const MinInteger: int := -0x8000_0000_0000_0000
  const MaxInteger: int := 0x7FFF_FFFF_FFFF_FFFF

  /**
   * Every ID can be bound as a query parameter; binding a Python int outside
   * the 64-bit range raises OverflowError.
   */
  predicate Bindable(ids: seq<int>) {
    forall id | id in ids :: MinInteger <= id <= MaxInteger
  }

  /** Light keys are SQLite INTEGERs, so a selection of existing lights can always be bound. */
  lemma SelectionBindable(table: Table, ids: seq<int>)
    requires forall id | id in table :: MinInteger <= id <= MaxInteger
    requires ValidSelection(table, ids)
    ensures Bindable(ids)
  {
  }

  /** What happens to one answer at the ID prompt. */
  datatype Answer =
    | EmptyAnswer                   // "Please enter at least one traffic light ID."
    | NotNumeric                    // some item is not an integer
    | Overflow                      // validation raises OverflowError, which nothing catches
    | UnknownIds(invalid: set<int>) // validation failed; these IDs are reported
    | Accepted(ids: seq<int>)       // the loop ends with these IDs

  /** The IDs an answer names: `[int(id.strip()) for id in text.split(',')]`, None on ValueError. */
  function RequestedIds(text: string): (r: Option<seq<int>>)
    ensures r.Some? ==> r.value != []
  {
    ParseEach(Split(text, ','), ParseItem)
  }

  /**
   * One pass of the ID prompt loop for the raw answer `input`: the blank
   * check, the parse, then validate_light_ids, whose query binds every ID.
   */
  function ReadAnswer(table: Table, input: string): Answer {
    var text := Strip(input);
    if text == [] then EmptyAnswer
    else
      match RequestedIds(text)
      case None => NotNumeric
      case Some(ids) =>
        if !Bindable(ids) then Overflow
        else
          var v := ValidateLightIds(table, ids);
          if !v.valid then UnknownIds(InvalidIds(ids, v.validIds)) else Accepted(ids)
  }

  /** An answer is refused as empty exactly when it is blank after stripping. */
  lemma ReadAnswerEmpty(table: Table, input: string)
    ensures ReadAnswer(table, input).EmptyAnswer? <==> Strip(input) == []
  {
  }

  /** A non-blank answer is refused as non-numeric exactly when some item is not an integer. */
  lemma ReadAnswerNotNumeric(table: Table, input: string)
    ensures ReadAnswer(table, input).NotNumeric? <==> Strip(input) != [] && RequestedIds(Strip(input)).None?
  {
  }

  /** The tool aborts exactly when every item parses but some ID is outside the 64-bit range. */
  lemma ReadAnswerOverflow(table: Table, input: string)
    ensures ReadAnswer(table, input).Overflow? <==>
              && Strip(input) != []
              && RequestedIds(Strip(input)).Some?
              && !Bindable(RequestedIds(Strip(input)).value)
  {
  }

  /**
   * A list of bindable IDs is refused exactly when it is not a valid
   * selection, and it then reports exactly the requested IDs missing from
   * the table.
   */
  lemma ReadAnswerUnknown(table: Table, input: string)
    ensures ReadAnswer(table, input).UnknownIds? <==>
              && Strip(input) != []
              && RequestedIds(Strip(input)).Some?
              && Bindable(RequestedIds(Strip(input)).value)
              && !ValidSelection(table, RequestedIds(Strip(input)).value)
    ensures ReadAnswer(table, input).UnknownIds? ==>
              forall id :: id in ReadAnswer(table, input).invalid <==>
                             id in RequestedIds(Strip(input)).value && id !in table
  {
    var text := Strip(input);
    if text != [] && RequestedIds(text).Some? {
      var ids := RequestedIds(text).value;
      InvalidIdsAreMissing(table, ids);
      assert Bindable(ids) ==> (ReadAnswer(table, input).UnknownIds? <==> !ValidateLightIds(table, ids).valid);
    }
  }

  /**
   * An answer is accepted exactly when it names a list of bindable, existing,
   * distinct IDs, and the loop then ends with that list, which is never empty.
   */
  lemma ReadAnswerAccepted(table: Table, input: string)
    ensures ReadAnswer(table, input).Accepted? <==>
              && Strip(input) != []
              && RequestedIds(Strip(input)).Some?
              && Bindable(RequestedIds(Strip(input)).value)
              && ValidSelection(table, RequestedIds(Strip(input)).value)
    ensures ReadAnswer(table, input).Accepted? ==>
              RequestedIds(Strip(input)) == Some(ReadAnswer(table, input).ids) && ReadAnswer(table, input).ids != []
  {
    var text := Strip(input);
    if text != [] && RequestedIds(text).Some? {
      var ids := RequestedIds(text).value;
      assert Bindable(ids) ==> (ReadAnswer(table, input).Accepted? <==> ValidateLightIds(table, ids).valid);
    }
  }

  /** The items `str(id)` of a list of IDs. */
  function Shown(ids: seq<int>): (items: seq<string>)
    ensures |items| == |ids|
  {
    seq(|ids|, i requires 0 <= i < |ids| => Show(ids[i]))
  }

  /** The answer a user types to select `ids`: `str` of each, joined by commas. */
  function FormatIds(ids: seq<int>): string
    requires ids != []
  {
    Join(Shown(ids), ',')
  }

  /** Each item `str(id)` has no comma and, once stripped, parses back as the ID. */
  lemma ShownItemsParse(ids: seq<int>)
    requires forall id | id in ids :: Showable(id)
    ensures forall p | p in Shown(ids) :: ',' !in p
    ensures ParseEach(Shown(ids), ParseItem) == Some(ids)
  {
    var items := Shown(ids);
    forall i | 0 <= i < |ids|
      ensures ',' !in items[i] && ParseItem(items[i]) == Some(ids[i])
    {
      ShowShape(ids[i]);
      StripUnchanged(items[i]);
      ParseShow(ids[i]);
    }
    ParseEachOf(items, ParseItem, ids);
  }

  /** The comma-joined answer has no whitespace at either end. */
  lemma FormatIdsStripped(ids: seq<int>)
    requires ids != []
    ensures FormatIds(ids) != []
    ensures Strip(FormatIds(ids)) == FormatIds(ids)
  {
    var items := Shown(ids);
    ShowShape(ids[0]);
    ShowShape(ids[|ids| - 1]);
    JoinEnds(items, ',');
    StripUnchanged(FormatIds(ids));
  }

  /** Typing `str` of each ID, comma-separated, reads back as the IDs. */
  lemma ParseFormatIds(ids: seq<int>)
    requires forall id | id in ids :: Showable(id)
    requires ids != []
    ensures FormatIds(ids) != []
    ensures Strip(FormatIds(ids)) == FormatIds(ids)
    ensures RequestedIds(FormatIds(ids)) == Some(ids)
  {
    FormatIdsStripped(ids);
    ShownItemsParse(ids);
    SplitJoin(Shown(ids), ',');
  }

  /** A join starts with the first item's first character and ends with the last item's last one. */
  lemma {:induction false} JoinEnds(parts: seq<string>, sep: char)
    requires |parts| >= 1 && parts[|parts| - 1] != []
    ensures Join(parts, sep) != []
    ensures parts[0] != [] ==> Join(parts, sep)[0] == parts[0][0]
    ensures Join(parts, sep)[|Join(parts, sep)| - 1] == parts[|parts| - 1][|parts[|parts| - 1]| - 1]
    decreases |parts|
  {
    if |parts| > 1 {
      JoinEnds(parts[1..], sep);
    }
  }

  /** An answer listing bindable, existing, distinct IDs ends the prompt loop with exactly those IDs. */
  lemma AcceptFormattedIds(table: Table, ids: seq<int>)
    requires forall id | id in ids :: Showable(id)
    requires ids != []
    ensures ReadAnswer(table, FormatIds(ids)) == Accepted(ids) <==>
              Bindable(ids) && ValidSelection(table, ids)
  {
    var answer := FormatIds(ids);
    ParseFormatIds(ids);
    assert Strip(answer) == answer != [];
    assert RequestedIds(Strip(answer)) == Some(ids);
  }

  /** The answers that leave the prompt loop: an accepted list, or the uncaught OverflowError. */
  predicate EndsLoop(a: Answer) {
    a.Accepted? || a.Overflow?
  }

  /** Position of the first outcome at or after `k` that leaves the loop, or `|outcomes|` when there is none. */
  function FirstEndFrom(outcomes: seq<Answer>, k: nat): (r: nat)
    requires k <= |outcomes|
    ensures k <= r <= |outcomes|
    ensures forall j | k <= j < r :: !EndsLoop(outcomes[j])
    ensures r < |outcomes| ==> EndsLoop(outcomes[r])
    decreases |outcomes| - k
  {
    if k == |outcomes| || EndsLoop(outcomes[k]) then k
    else FirstEndFrom(outcomes, k + 1)
  }

  /** What each successive answer leads to: `ReadAnswer` of each, in order. */
  function Outcomes(table: Table, answers: seq<string>): (outcomes: seq<Answer>)
    ensures |outcomes| == |answers|
  {
    seq(|answers|, i requires 0 <= i < |answers| => ReadAnswer(table, answers[i]))
  }

  /** How the ID prompt ends. */
  datatype PromptEnd =
    | Selected(ids: seq<int>) // the loop breaks with these IDs
    | Raised                  // OverflowError propagates out of create_intersection_group
    | NoMoreAnswers           // every answer given so far was refused

  /** The end of the prompt loop over the successive answers. */
  function PromptOutcome(table: Table, answers: seq<string>): (r: PromptEnd)
    ensures r.Selected? ==> r.ids != [] && Bindable(r.ids) && ValidSelection(table, r.ids)
  {
    var outcomes := Outcomes(table, answers);
    var k := FirstEndFrom(outcomes, 0);
    if k == |outcomes| then NoMoreAnswers
    else if outcomes[k].Accepted? then
      ReadAnswerAccepted(table, answers[k]);
      Selected(outcomes[k].ids)
    else Raised
  }

  /**
   * The loop selects the IDs of an accepted answer, or raises at an
   * overflowing one, preceded only by refused answers; it keeps asking
   * exactly when every answer is refused.
   */
  lemma PromptOutcomeIsFirst(table: Table, answers: seq<string>)
    ensures var outcomes := Outcomes(table, answers);
      PromptOutcome(table, answers).Selected? ==>
        exists k | 0 <= k < |outcomes| ::
          && outcomes[k] == Accepted(PromptOutcome(table, answers).ids)
          && forall j | 0 <= j < k :: !EndsLoop(outcomes[j])
    ensures var outcomes := Outcomes(table, answers);
      PromptOutcome(table, answers).Raised? ==>
        exists k | 0 <= k < |outcomes| ::
          && outcomes[k].Overflow?
          && forall j | 0 <= j < k :: !EndsLoop(outcomes[j])
    ensures var outcomes := Outcomes(table, answers);
      PromptOutcome(table, answers).NoMoreAnswers? <==> forall k | 0 <= k < |outcomes| :: !EndsLoop(outcomes[k])
  {
    var outcomes := Outcomes(table, answers);
    var k := FirstEndFrom(outcomes, 0);
    if k < |outcomes| {
      assert outcomes[k].Accepted? ==> outcomes[k] == Accepted(PromptOutcome(table, answers).ids);
      assert outcomes[k].Overflow? ==> PromptOutcome(table, answers).Raised?;
    }
  }

  /**
   * The ID prompt loop of create_intersection_group over the successive
   * answers: it ends at the first accepted answer, or at the first answer
   * whose validation raises.
   */
  method PromptForLightIds(table: Table, answers: seq<string>) returns (end: PromptEnd)
    ensures end == PromptOutcome(table, answers)
  {
    ghost var outcomes := Outcomes(table, answers);
    var k := 0;
    while k < |answers|
      invariant 0 <= k <= |answers|
      invariant FirstEndFrom(outcomes, 0) == FirstEndFrom(outcomes, k)
    {
      var answer := ReadAnswer(table, answers[k]);
      if answer.Accepted? {
        return Selected(answer.ids);
      } else if answer.Overflow? {
        return Raised;
      }
      k := k + 1;
    }
    return NoMoreAnswers;
  }

  /** The local time `datetime.now()` gives, to the minute. */
  datatype LocalTime = LocalTime(year: int, month: int, day: int, hour: int, minute: int)

  predicate ValidTime(t: LocalTime) {
    && 1000 <= t.year <= 9999
    && 1 <= t.month <= 12
    && 1 <= t.day <= 31
    && 0 <= t.hour <= 23
    && 0 <= t.minute <= 59
  }

  /** `strftime('%Y%m%d%H%M')`. */
  function FormatStamp(t: LocalTime): (r: string)
    requires ValidTime(t)
    ensures |r| == 12 && forall c | c in r :: IsDigit(c)
  {
    var r := PadDigits(t.year, 4) + PadDigits(t.month, 2) + PadDigits(t.day, 2) + PadDigits(t.hour, 2)
      + PadDigits(t.minute, 2);
    assert forall c | c in r ::
      c in PadDigits(t.year, 4) || c in PadDigits(t.month, 2) || c in PadDigits(t.day, 2) ||
      c in PadDigits(t.hour, 2) || c in PadDigits(t.minute, 2);
    r
  }

  /** Reads the five fields back from a twelve-digit stamp. */
  function ParseStamp(s: string): LocalTime
    requires |s| == 12
  {
    LocalTime(DecimalValue(s[..4]), DecimalValue(s[4..6]), DecimalValue(s[6..8]), DecimalValue(s[8..10]),
              DecimalValue(s[10..]))
  }

  /** The stamp reads back as the time it was made from. */
  lemma StampRoundTrip(t: LocalTime)
    requires ValidTime(t)
    ensures ParseStamp(FormatStamp(t)) == t
  {
    var s := FormatStamp(t);
    assert s[..4] == PadDigits(t.year, 4);
    assert s[4..6] == PadDigits(t.month, 2);
    assert s[6..8] == PadDigits(t.day, 2);
    assert s[8..10] == PadDigits(t.hour, 2);
    assert s[10..] == PadDigits(t.minute, 2);
    assert Pow10(2) == 100 && Pow10(4) == 10000;
    PadDigitsValue(t.year, 4);
    PadDigitsValue(t.month, 2);
    PadDigitsValue(t.day, 2);
    PadDigitsValue(t.hour, 2);
    PadDigitsValue(t.minute, 2);
  }

  /** Python's `s.replace(' ', '_')`. */
  function ReplaceSpaces(s: string): (r: string)
    ensures |r| == |s|
    ensures forall i | 0 <= i < |s| :: r[i] == if s[i] == ' ' then '_' else s[i]
  {
    if s == [] then []
    else [if s[0] == ' ' then '_' else s[0]] + ReplaceSpaces(s[1..])
  }

  /** The intersection identifier: the name with spaces made underscores, `_`, the stamp. */
  function GroupId(name: string, t: LocalTime): string
    requires ValidTime(t)
  {
    ReplaceSpaces(name) + "_" + FormatStamp(t)
  }

  /**
   * A group identifier has no space, splits at a fixed position into the
   * name with underscores for spaces and the stamp, and gives back the time.
   */
  lemma GroupIdParts(name: string, t: LocalTime)
    requires ValidTime(t)
    ensures var g := GroupId(name, t);
      && |g| == |name| + 13
      && ' ' !in g
      && g[..|name|] == ReplaceSpaces(name)
      && g[|name|] == '_'
      && g[|name| + 1..] == FormatStamp(t)
      && ParseStamp(g[|name| + 1..]) == t
  {
    var g := GroupId(name, t);
    var stamp := FormatStamp(t);
    assert g[|name| + 1..] == stamp;
    forall i | 0 <= i < |g| ensures g[i] != ' ' {
      if i > |name| {
        assert g[i] == stamp[i - |name| - 1];
        assert stamp[i - |name| - 1] in stamp;
      }
    }
    StampRoundTrip(t);
  }

  /** Lights whose intersection id is `gid`. */
  function Members(rows: Table, gid: string): set<int> {
    set l | l in rows && rows[l].intersectionId == gid
  }

  /**
   * The table after `UPDATE ... SET intersection_id = gid WHERE light_id IN ids`.
   */
  function Assigned(rows: Table, ids: seq<int>, gid: string): (r: Table)
    ensures r.Keys == rows.Keys
    ensures forall l | l in r :: r[l].name == rows[l].name && r[l].location == rows[l].location
    ensures forall l | l in r :: r[l].intersectionId == if l in ids then gid else rows[l].intersectionId
  {
    map l | l in rows :: if l in ids then rows[l].(intersectionId := gid) else rows[l]
  }

  /**
   * After the update the group holds the selected lights that exist, in
   * addition to any light already carrying that id.
   */
  lemma AssignedMembers(rows: Table, ids: seq<int>, gid: string)
    ensures Members(Assigned(rows, ids, gid), gid) == (set l | l in ids && l in rows) + Members(rows, gid)
  {
    var r := Assigned(rows, ids, gid);
    assert forall l | l in r :: l in rows;
  }

  /** The light table the tool updates. */
  class LightTable {
    var rows: Table

    constructor (rows: Table)
      ensures this.rows == rows
    {
      this.rows := rows;
    }

    /** The UPDATE of the selected rows' intersection id. */
    method AssignIntersection(ids: seq<int>, gid: string)
      modifies this
      ensures rows == Assigned(old(rows), ids, gid)
    {
      rows := Assigned(rows, ids, gid);
    }

    /**
     * create_intersection_group: the name and location answers, the local
     * time at which the name was given, and the successive answers at the ID
     * prompt. `end` tells how the prompt ended: `Raised` is the uncaught
     * OverflowError that ends the tool, `NoMoreAnswers` means the answers ran
     * out before one was accepted. In both cases `gid` is None, no UPDATE
     * runs and the table is unchanged.
     */
    method CreateIntersectionGroup(nameAnswer: string, locationAnswer: string, now: LocalTime,
                                   idAnswers: seq<string>)
      returns (gid: Option<string>, end: PromptEnd)
      requires ValidTime(now)
      modifies this
      ensures end == PromptOutcome(old(rows), idAnswers)
      ensures gid.Some? <==> PromptOutcome(old(rows), idAnswers).Selected?
      ensures gid.Some? ==>
                && gid.value == GroupId(Strip(nameAnswer), now)
                && rows == Assigned(old(rows), PromptOutcome(old(rows), idAnswers).ids, gid.value)
      ensures gid.None? ==> rows == old(rows)
    {
      var name := Strip(nameAnswer);
      var location := Strip(locationAnswer);
      var intersectionId := GroupId(name, now);
      end := PromptForLightIds(rows, idAnswers);
      if !end.Selected? {
        return None, end;
      }
      AssignIntersection(end.ids, intersectionId);
      return Some(intersectionId), end;
    }
  }
}
