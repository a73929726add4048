/** The `edit_file` tool: whitespace normalisation, first-occurrence replacement
    by byte offsets, and the context shown with each edit. */
module TextEdit {
  import opened Prelude
  import opened Utf8

  // ---------------------------------------------------------------- search

  predicate OccursAt(s: Bytes, part: Bytes, i: int) {
    0 <= i <= i + |part| <= |s| && s[i..i + |part|] == part
  }

  ghost predicate Occurs(s: Bytes, part: Bytes) {
    exists i :: OccursAt(s, part, i)
  }

  /** The first place where `part` occurs. */
  function Find(s: Bytes, part: Bytes): (r: Option<nat>)
    ensures r.Some? ==> OccursAt(s, part, r.value) && forall i :: 0 <= i < r.value ==> !OccursAt(s, part, i)
    ensures r.None? ==> forall i :: 0 <= i <= |s| ==> !OccursAt(s, part, i)
  {
    if OccursAt(s, part, 0) then
      Some(0)
    else if s == [] then
      None
    else
      OccursLater(s, part);
      match Find(s[1..], part)
      case None => None
      case Some(i) => Some(i + 1)
  }

  lemma OccursLater(s: Bytes, part: Bytes)
    requires s != []
    ensures forall i :: 1 <= i <= |s| ==> OccursAt(s, part, i) == OccursAt(s[1..], part, i - 1)
  {
    forall i | 1 <= i <= |s|
      ensures OccursAt(s, part, i) == OccursAt(s[1..], part, i - 1)
    {
      if i + |part| <= |s| {
        assert s[1..][i - 1..i - 1 + |part|] == s[i..i + |part|];
      }
    }
  }

  /** Replaces every occurrence, from the left and without overlap. */
  function ReplaceAll(s: Bytes, part: Bytes, replacement: Bytes): Bytes
    requires part != []
    decreases |s|
  {
    match Find(s, part)
    case None => s
    case Some(i) => s[..i] + replacement + ReplaceAll(s[i + |part|..], part, replacement)
  }

  // ------------------------------------------------------------- whitespace

  const TAB: Bytes := [0x09]
  const FOUR_SPACES: Bytes := [0x20, 0x20, 0x20, 0x20]

  function NormalizeWhitespace(text: Bytes, indent: Bytes): Bytes {
    if indent == TAB then ReplaceAll(text, FOUR_SPACES, TAB) else ReplaceAll(text, TAB, FOUR_SPACES)
  }

  /** Newline-separated lines; a final newline does not start another line.
      The carriage return that ends a line plays no part in its start. */
  function Lines(s: Bytes): seq<Bytes>
    decreases |s|
  {
    if s == [] then []
    else
      var i := IndexOf(s, NEWLINE);
      if i == |s| then [s] else [s[..i]] + Lines(s[i + 1..])
  }

  predicate TabLine(line: Bytes) {
    TAB <= line
  }

  predicate SpaceLine(line: Bytes) {
    !TabLine(line) && [0x20, 0x20] <= line
  }

  function Count(lines: seq<Bytes>, k: nat, p: Bytes -> bool): nat
    requires k <= |lines|
  {
    if k == 0 then 0 else Count(lines, k - 1, p) + if p(lines[k - 1]) then 1 else 0
  }

  /** Tabs win only when strictly more lines start with one than with two spaces. */
  function IndentOf(content: Bytes): Bytes {
    var lines := Lines(content);
    if Count(lines, |lines|, TabLine) > Count(lines, |lines|, SpaceLine) then TAB else FOUR_SPACES
  }

  /** What a line says about the indentation: a tab in front counts for tabs, and two
      spaces in front count against them. */
  function Vote(line: Bytes): int {
    if |line| >= 1 && line[0] == 0x09 then 1
    else if |line| >= 2 && line[0] == 0x20 && line[1] == 0x20 then -1
    else 0
  }

  function Votes(lines: seq<Bytes>): int {
    if lines == [] then 0 else Votes(lines[..|lines| - 1]) + Vote(lines[|lines| - 1])
  }

  lemma {:induction false} VotesAreCounts(lines: seq<Bytes>, k: nat)
    requires k <= |lines|
    ensures Votes(lines[..k]) == Count(lines, k, TabLine) - Count(lines, k, SpaceLine)
  {
    if k > 0 {
      VotesAreCounts(lines, k - 1);
      assert lines[..k][..k - 1] == lines[..k - 1];
      var line := lines[k - 1];
      assert TabLine(line) <==> |line| >= 1 && line[0] == 0x09;
      assert SpaceLine(line) <==> |line| >= 2 && line[0] == 0x20 && line[1] == 0x20;
    }
  }

  function Joined(lines: seq<Bytes>): Bytes {
    if lines == [] then [] else lines[0] + [NEWLINE] + Joined(lines[1..])
  }

  /** The text with a newline at its end. */
  function Terminated(s: Bytes): Bytes {
    if s == [] || s[|s| - 1] == NEWLINE then s else s + [NEWLINE]
  }

  lemma TerminatedTail(a: Bytes, rest: Bytes)
    ensures Terminated(a + [NEWLINE] + rest) == a + [NEWLINE] + Terminated(rest)
  {
    var s := a + [NEWLINE] + rest;
    assert rest != [] ==> rest[|rest| - 1] == s[|s| - 1];
    Assoc(a + [NEWLINE], rest, [NEWLINE]);
  }

  lemma LastLine(s: Bytes)
    requires NEWLINE !in s
    ensures Lines(s) == if s == [] then [] else [s]
  {
  }

  lemma FirstOfLines(line: Bytes, rest: Bytes)
    requires NEWLINE !in line
    ensures Lines(line + [NEWLINE] + rest) == [line] + Lines(rest)
  {
    var s := line + [NEWLINE] + rest;
    assert s == line + ([NEWLINE] + rest);
    IndexAfter(line, [NEWLINE] + rest, NEWLINE);
    assert s[..|line|] == line && s[|line| + 1..] == rest;
  }

  /** The lines are what stands between the newlines of the text; one at its end ends the
      last line. */
  lemma {:induction false} LinesMeaning(s: Bytes)
    ensures forall i :: 0 <= i < |Lines(s)| ==> NEWLINE !in Lines(s)[i]
    ensures Joined(Lines(s)) == Terminated(s)
    decreases |s|
  {
    hide Lines;
    var i := IndexOf(s, NEWLINE);
    if i < |s| {
      var line, rest := s[..i], s[i + 1..];
      LinesMeaning(rest);
      FirstOfLines(line, rest);
      TerminatedTail(line, rest);
      assert s == line + [NEWLINE] + rest;
      hide Terminated;
      assert ([line] + Lines(rest))[1..] == Lines(rest);
    } else {
      assert s[..|s|] == s;
      LastLine(s);
      var lines: seq<Bytes> := [s];
      assert lines[1..] == [] && s + [NEWLINE] + [] == s + [NEWLINE];
    }
  }

  /** Tabs are the indentation exactly when more lines are for them than against; a tie
      goes to four spaces. */
  lemma IndentByMajority(content: Bytes)
    ensures IndentOf(content) == if Votes(Lines(content)) > 0 then [0x09] else [0x20, 0x20, 0x20, 0x20]
  {
    hide Lines, Votes, Count;
    var lines := Lines(content);
    VotesAreCounts(lines, |lines|);
    assert lines[..|lines|] == lines;
  }

  method DetectIndent(content: Text) returns (indent: Bytes)
    ensures indent == IndentOf(content)
  {
    hide Valid;
    var lines := Lines(content);
    var spaces, tabs := 0, 0;
    for k := 0 to |lines|
      invariant tabs == Count(lines, k, TabLine)
      invariant spaces == Count(lines, k, SpaceLine)
    {
      if TAB <= lines[k] {
        tabs := tabs + 1;
      } else if [0x20, 0x20] <= lines[k] {
        spaces := spaces + 1;
      }
    }
    indent := if tabs > spaces then TAB else FOUR_SPACES;
  }

  lemma MatchIsCut(s: Text, part: Text, i: nat)
    requires part != [] && OccursAt(s, part, i)
    ensures IsBoundary(s, i) && IsBoundary(s, i + |part|)
  {
    assert s[i..i + |part|][0] == part[0];
    MatchEndsAtBoundary(s, i, part);
  }

  lemma {:induction false} ReplaceAllValid(s: Text, part: Text, replacement: Text)
    requires part != []
    ensures Valid(ReplaceAll(s, part, replacement))
    decreases |s|
  {
    hide Valid, IsBoundary;
    var r := Find(s, part);
    if r.Some? {
      var i := r.value;
      MatchIsCut(s, part, i);
      SplitValid(s, i);
      SplitValid(s, i + |part|);
      ReplaceAllValid(s[i + |part|..], part, replacement);
      ConcatValid(s[..i], replacement);
      ConcatValid(s[..i] + replacement, ReplaceAll(s[i + |part|..], part, replacement));
    }
  }

  lemma WhitespaceValid(text: Text, indent: Bytes)
    ensures Valid(NormalizeWhitespace(text, indent))
  {
    assert Valid(TAB);
    assert Valid(FOUR_SPACES) by {
      assert Valid([0x20]) && Valid([0x20, 0x20]);
    }
    ReplaceAllValid(text, FOUR_SPACES, TAB);
    ReplaceAllValid(text, TAB, FOUR_SPACES);
  }

  lemma StraddlingHolds(a: Bytes, c: byte, b: Bytes, part: Bytes, i: int)
    requires OccursAt(a + [c] + b, part, i) && i <= |a| < i + |part|
    ensures c in part
  {
    assert (a + [c] + b)[i..i + |part|][|a| - i] == c;
  }

  /** An occurrence inside `a + [c] + b` of a part without `c` lies in `a` or in `b`. */
  lemma OccurrenceAround(a: Bytes, c: byte, b: Bytes, part: Bytes, i: int)
    requires c !in part && OccursAt(a + [c] + b, part, i)
    ensures OccursAt(a, part, i) || OccursAt(b, part, i - |a| - 1)
  {
    var s := a + [c] + b;
    if i + |part| <= |a| {
      assert a[i..i + |part|] == s[i..i + |part|];
    } else if i > |a| {
      assert b[i - |a| - 1..i - |a| - 1 + |part|] == s[i..i + |part|];
    } else {
      StraddlingHolds(a, c, b, part, i);
    }
  }

  lemma OccursInFront(a: Bytes, rest: Bytes, part: Bytes, i: int)
    requires OccursAt(a, part, i)
    ensures OccursAt(a + rest, part, i)
  {
    assert (a + rest)[i..i + |part|] == a[i..i + |part|];
  }

  /** With tab indentation no run of four spaces is left. */
  lemma {:induction false} TabsLeaveNoRun(s: Bytes)
    ensures Find(ReplaceAll(s, FOUR_SPACES, TAB), FOUR_SPACES).None?
    decreases |s|
  {
    var r := Find(s, FOUR_SPACES);
    if r.Some? {
      var a, b := s[..r.value], ReplaceAll(s[r.value + 4..], FOUR_SPACES, TAB);
      TabsLeaveNoRun(s[r.value + 4..]);
      var out := Find(a + TAB + b, FOUR_SPACES);
      if out.Some? {
        OccurrenceAround(a, 0x09, b, FOUR_SPACES, out.value);
        if OccursAt(a, FOUR_SPACES, out.value) {
          assert s == a + s[r.value..];
          OccursInFront(a, s[r.value..], FOUR_SPACES, out.value);
        }
        assert false;
      }
    }
  }

  /** With space indentation no tab is left. */
  lemma {:induction false} SpacesLeaveNoTab(s: Bytes)
    ensures 0x09 !in ReplaceAll(s, TAB, FOUR_SPACES)
    decreases |s|
  {
    var r := Find(s, TAB);
    if r.Some? {
      SpacesLeaveNoTab(s[r.value + 1..]);
    }
    var n := if r.Some? then r.value else |s|;
    forall i | 0 <= i < n
      ensures s[i] != 0x09
    {
      assert !OccursAt(s, TAB, i);
      assert s[i..i + 1] == [s[i]];
    }
  }

  lemma NoTabNoMatch(s: Bytes)
    ensures Find(s, TAB).Some? ==> 0x09 in s
  {
    var r := Find(s, TAB);
    if r.Some? {
      assert s[r.value] == s[r.value..r.value + 1][0];
    }
  }

  /** Normalising twice is normalising once. */
  lemma WhitespaceIdempotent(text: Bytes, indent: Bytes)
    ensures NormalizeWhitespace(NormalizeWhitespace(text, indent), indent) == NormalizeWhitespace(text, indent)
  {
    var once := NormalizeWhitespace(text, indent);
    if indent == TAB {
      TabsLeaveNoRun(text);
    } else {
      SpacesLeaveNoTab(text);
      NoTabNoMatch(once);
    }
  }

  /** The text with every tab written as four spaces. */
  function Expanded(s: Bytes): Bytes {
    if s == [] then [] else (if s[0] == 0x09 then FOUR_SPACES else [s[0]]) + Expanded(s[1..])
  }

  lemma {:induction false} ExpandedConcat(a: Bytes, b: Bytes)
    ensures Expanded(a + b) == Expanded(a) + Expanded(b)
  {
    if a == [] {
      assert a + b == b;
    } else {
      assert (a + b)[1..] == a[1..] + b;
      ExpandedConcat(a[1..], b);
      Assoc(if a[0] == 0x09 then FOUR_SPACES else [a[0]], Expanded(a[1..]), Expanded(b));
    }
  }

  lemma {:induction false} ExpandedPlain(s: Bytes)
    requires 0x09 !in s
    ensures Expanded(s) == s
  {
    if s != [] {
      ExpandedPlain(s[1..]);
    }
  }

  lemma ExpandedUnits()
    ensures Expanded(TAB) == FOUR_SPACES && Expanded(FOUR_SPACES) == FOUR_SPACES
  {
    assert TAB[1..] == [];
    ExpandedPlain(FOUR_SPACES);
  }

  /** Replacing a part by one that expands to the same changes no expansion. */
  lemma {:induction false} ReplaceKeepsExpanded(s: Bytes, part: Bytes, replacement: Bytes)
    requires part != [] && Expanded(part) == Expanded(replacement)
    ensures Expanded(ReplaceAll(s, part, replacement)) == Expanded(s)
    decreases |s|
  {
    hide Expanded;
    var r := Find(s, part);
    if r.Some? {
      var a, b := s[..r.value], s[r.value + |part|..];
      ReplaceKeepsExpanded(b, part, replacement);
      assert s == a + part + b;
      ExpandedConcat(a + part, b);
      ExpandedConcat(a, part);
      ExpandedConcat(a + replacement, ReplaceAll(b, part, replacement));
      ExpandedConcat(a, replacement);
    }
  }

  /** Whitespace normalization only trades tabs for runs of four spaces: what the text
      expands to stays the same. */
  lemma WhitespaceKeepsExpanded(text: Bytes, indent: Bytes)
    ensures Expanded(NormalizeWhitespace(text, indent)) == Expanded(text)
  {
    ExpandedUnits();
    ReplaceKeepsExpanded(text, FOUR_SPACES, TAB);
    ReplaceKeepsExpanded(text, TAB, FOUR_SPACES);
  }

  lemma ExpandedGrows(s: Bytes)
    ensures s != [] ==> Expanded(s) != []
  {
  }

  /** A text holds its own normalized form only when it is normalized already: both
      expand to the same. */
  lemma NormalOccursInItself(text: Bytes, indent: Bytes)
    ensures Occurs(text, NormalizeWhitespace(text, indent)) <==> NormalizeWhitespace(text, indent) == text
  {
    var part := NormalizeWhitespace(text, indent);
    WhitespaceKeepsExpanded(text, indent);
    hide NormalizeWhitespace, Expanded;
    assert part == text ==> OccursAt(text, part, 0);
    if Occurs(text, part) {
      var i :| OccursAt(text, part, i);
      var a, b := text[..i], text[i + |part|..];
      assert text == a + part + b;
      ExpandedConcat(a + part, b);
      ExpandedConcat(a, part);
      ExpandedGrows(a);
      ExpandedGrows(b);
      assert [] + part + [] == part;
    }
  }

  /** What whitespace normalization leaves alone: with tab indentation a text without a
      run of four spaces, with space indentation a text without a tab. */
  lemma WhitespaceUnchanged(text: Bytes, indent: Bytes)
    ensures NormalizeWhitespace(text, indent) == text <==>
              if indent == TAB then !Occurs(text, FOUR_SPACES) else 0x09 !in text
  {
    if indent == TAB {
      TabsLeaveNoRun(text);
    } else {
      SpacesLeaveNoTab(text);
      NoTabNoMatch(text);
    }
  }

  /** The content is searched as it is, but the old text is normalized first. So an old
      text is found wherever it occurs exactly when normalization leaves it alone. */
  lemma FoundWhereItOccurs(oldText: Text, indent: Bytes)
    ensures (forall text: Text :: Occurs(text, oldText) ==> Find(text, Normal(oldText, indent)).Some?) <==>
              if indent == TAB then !Occurs(oldText, FOUR_SPACES) else 0x09 !in oldText
  {
    WhitespaceUnchanged(oldText, indent);
    NormalOccursInItself(oldText, indent);
    hide Valid, NormalizeWhitespace;
    if forall text: Text :: Occurs(text, oldText) ==> Find(text, Normal(oldText, indent)).Some? {
      assert OccursAt(oldText, oldText, 0);
      assert Find(oldText, Normal(oldText, indent)).Some?;
    }
  }

  const TAB_LINE: Bytes := [0x09, 0x61]
  const SPACE_LINE: Bytes := [0x20, 0x20, 0x62]

  lemma TwoLines()
    ensures Lines(TAB_LINE + [NEWLINE] + SPACE_LINE) == [TAB_LINE, SPACE_LINE]
  {
    FirstOfLines(TAB_LINE, SPACE_LINE);
    LastLine(SPACE_LINE);
  }

  lemma TiedLines()
    ensures IndentOf(TAB_LINE + [NEWLINE] + SPACE_LINE) == FOUR_SPACES
    ensures NormalizeWhitespace(TAB_LINE, FOUR_SPACES) == FOUR_SPACES + [0x61]
  {
    TwoLines();
    hide Lines, IndexOf;
    var lines := [TAB_LINE, SPACE_LINE];
    assert SPACE_LINE[0] != TAB[0];
    assert Count(lines, 1, TabLine) == 1 && Count(lines, 2, TabLine) == 1;
    assert Count(lines, 1, SpaceLine) == 0 && Count(lines, 2, SpaceLine) == 1;
    assert OccursAt(TAB_LINE, TAB, 0);
    assert TAB_LINE[1..] == [0x61];
  }

  /** In "\ta\n  b" as many lines start with a tab as with two spaces, so "\ta" is looked
      for with four spaces and not found, although it stands at the start. */
  lemma TabIsNotFound()
    ensures var text := TAB_LINE + [NEWLINE] + SPACE_LINE;
            && Valid(text) && Valid(TAB_LINE) && OccursAt(text, TAB_LINE, 0)
            && Find(text, NormalizeWhitespace(TAB_LINE, IndentOf(text))).None?
  {
    var text := TAB_LINE + [NEWLINE] + SPACE_LINE;
    TiedLines();
    AsciiValid(text);
    AsciiValid(TAB_LINE);
    hide Valid, NormalizeWhitespace, IndentOf, IndexOf, Lines, Count;
    var part := FOUR_SPACES + [0x61];
    assert text[0..5][0] == 0x09 && text[1..6][0] == 0x61 && part[0] == 0x20;
  }

  // ------------------------------------------------------------- boundaries

  /** The largest boundary at or below `i`. */
  predicate IsFloor(s: Bytes, i: int, r: int) {
    IsBoundary(s, r) && r <= i && forall j :: r < j <= i ==> !IsBoundary(s, j)
  }

  /** The smallest boundary at or above `i`. */
  predicate IsCeil(s: Bytes, i: int, r: int) {
    IsBoundary(s, r) && i <= r && forall j :: i <= j < r ==> !IsBoundary(s, j)
  }

  method FloorCharBoundary(s: Bytes, start: nat) returns (i: nat)
    ensures IsFloor(s, Min(start, |s|), i)
  {
    i := start;
    if i >= |s| {
      return |s|;
    }
    while i > 0 && !IsBoundary(s, i)
      invariant i <= start
      invariant forall j :: i < j <= start ==> !IsBoundary(s, j)
    {
      i := i - 1;
    }
  }

  method CeilCharBoundary(s: Bytes, start: nat) returns (i: nat)
    requires start <= |s|
    ensures IsCeil(s, start, i)
  {
    i := start;
    while i < |s| && !IsBoundary(s, i)
      invariant start <= i <= |s|
      invariant forall j :: start <= j < i ==> !IsBoundary(s, j)
    {
      i := i + 1;
    }
  }

  // ------------------------------------------------------------------ edits

  datatype Edit = Edit(oldText: Option<Text>, newText: Text)

  datatype Diff =
    | Replaced(oldText: Text, newText: Text, position: nat, context: Bytes)
    | NotFound(oldText: Text, newText: Text)

  datatype EditError = MissingOldText

  datatype Outcome = Outcome(text: Text, diffs: seq<Diff>, written: Option<Text>)

  /** One edit of the text: the first occurrence is replaced, no occurrence changes nothing. */
  function ApplyEdit(text: Text, oldText: Text, newText: Text): (r: Text)
    ensures Find(text, oldText).None? ==> r == text
  {
    match Find(text, oldText)
    case None => text
    case Some(i) =>
      ReplacementValid(text, oldText, newText, i);
      text[..i] + newText + text[i + |oldText|..]
  }

  lemma ReplacementValid(text: Text, oldText: Text, newText: Text, i: nat)
    requires Find(text, oldText) == Some(i)
    ensures IsBoundary(text, i) && IsBoundary(text, i + |oldText|)
    ensures Valid(text[..i] + newText + text[i + |oldText|..])
  {
    hide Valid;
    if oldText != [] {
      MatchIsCut(text, oldText, i);
    } else {
      assert OccursAt(text, oldText, 0);
    }
    hide IsBoundary, OccursAt;
    CutAndJoined(text, i, i + |oldText|, newText);
  }

  lemma CutAndJoined(text: Text, i: int, j: int, newText: Text)
    requires IsBoundary(text, i) && IsBoundary(text, j)
    ensures Valid(text[..i] + newText + text[j..])
  {
    SplitValid(text, i);
    SplitValid(text, j);
    hide Valid;
    ConcatValid(text[..i], newText);
    ConcatValid(text[..i] + newText, text[j..]);
  }

  /** The old text stood where the new text stands, nothing around it has changed, and
      it did not occur any earlier. */
  lemma FirstOccurrenceReplaced(text: Text, oldText: Text, newText: Text) returns (front: Bytes, back: Bytes)
    requires Occurs(text, oldText)
    ensures text == front + oldText + back && ApplyEdit(text, oldText, newText) == front + newText + back
    ensures forall i :: 0 <= i < |front| ==> !OccursAt(text, oldText, i)
  {
    hide Valid;
    var i := Find(text, oldText).value;
    front, back := text[..i], text[i + |oldText|..];
  }

  function Normal(text: Text, indent: Bytes): Text {
    WhitespaceValid(text, indent);
    NormalizeWhitespace(text, indent)
  }

  /** The first `k` edits all name the text they replace. */
  predicate Complete(edits: seq<Edit>, k: nat)
    requires k <= |edits|
  {
    forall j :: 0 <= j < k ==> edits[j].oldText.Some?
  }

  /** The text after the first `k` of a list of edits. */
  function ApplyFirst(text: Text, edits: seq<Edit>, k: nat, indent: Bytes): Text
    requires k <= |edits| && Complete(edits, k)
  {
    if k == 0 then text
    else
      ApplyEdit(ApplyFirst(text, edits, k - 1, indent),
                Normal(edits[k - 1].oldText.value, indent), Normal(edits[k - 1].newText, indent))
  }

  /** `s` turns into `t`: the new text stands where the old text first occurred in `s`, or
      it did not occur and nothing changes. */
  ghost predicate Turns(s: Bytes, oldText: Bytes, newText: Bytes, t: Bytes) {
    if Occurs(s, oldText) then
      exists front, back ::
        && s == front + oldText + back && t == front + newText + back
        && forall i :: 0 <= i < |front| ==> !OccursAt(s, oldText, i)
    else t == s
  }

  lemma ApplyTurns(text: Text, oldText: Text, newText: Text)
    ensures Turns(text, oldText, newText, ApplyEdit(text, oldText, newText))
  {
    hide Valid, ApplyEdit;
    if Find(text, oldText).Some? {
      assert OccursAt(text, oldText, Find(text, oldText).value);
      var front, back := FirstOccurrenceReplaced(text, oldText, newText);
    }
  }

  /** The texts of a whole list of edits: each edit turns the text that the edits before it
      left, starting with the content. */
  ghost predicate Stages(content: Text, edits: seq<Edit>, indent: Bytes, texts: seq<Text>)
    requires Complete(edits, |edits|)
  {
    && |texts| == |edits| + 1 && texts[0] == content
    && forall k :: 0 <= k < |edits| ==> TurnsAt(edits, indent, texts, k)
  }

  ghost predicate TurnsAt(edits: seq<Edit>, indent: Bytes, texts: seq<Text>, k: nat)
    requires k < |edits| && k + 1 < |texts| && Complete(edits, |edits|)
  {
    Turns(texts[k], NormalizeWhitespace(edits[k].oldText.value, indent), NormalizeWhitespace(edits[k].newText, indent),
          texts[k + 1])
  }

  lemma StagesOf(content: Text, edits: seq<Edit>, indent: Bytes) returns (texts: seq<Text>)
    requires Complete(edits, |edits|)
    ensures Stages(content, edits, indent, texts)
    ensures forall k :: 0 <= k <= |edits| ==> texts[k] == ApplyFirst(content, edits, k, indent)
  {
    hide Valid, ApplyEdit, Turns, NormalizeWhitespace;
    texts := seq(|edits| + 1, k requires 0 <= k <= |edits| => ApplyFirst(content, edits, k, indent));
    forall k | 0 <= k < |edits|
      ensures TurnsAt(edits, indent, texts, k)
    {
      ApplyTurns(texts[k], Normal(edits[k].oldText.value, indent), Normal(edits[k].newText, indent));
    }
  }

  const DOTS: Bytes := [0x2E, 0x2E, 0x2E]
  const ESCAPED_NEWLINE: Bytes := [0x5C, 0x6E]

  /** What is reported for one edit of `text`: the place of the match and up to
      forty bytes on each side of it, widened to whole characters. */
  ghost predicate IsReport(text: Text, edit: Edit, indent: Bytes, diff: Diff)
    requires edit.oldText.Some?
  {
    var part := Normal(edit.oldText.value, indent);
    match Find(text, part)
    case None => diff == NotFound(edit.oldText.value, edit.newText)
    case Some(i) =>
      exists a, b :: Window(text, i, i + |part|, a, b) &&
        diff == Replaced(edit.oldText.value, edit.newText, i,
                         DOTS + ReplaceAll(text[a..b], [NEWLINE], ESCAPED_NEWLINE) + DOTS)
  }

  ghost predicate Window(text: Bytes, pos: int, end: int, a: int, b: int) {
    && 0 <= a <= b <= |text|
    && IsFloor(text, if pos < 40 then 0 else pos - 40, a)
    && IsCeil(text, Min(end + 40, |text|), b)
  }

  /** The window starts and ends at character boundaries, holds the whole match,
      reaches at most 43 bytes beyond it on each side, and is itself valid text. */
  lemma WindowBounds(text: Text, part: Text, pos: nat, a: int, b: int)
    requires Find(text, part) == Some(pos)
    requires Window(text, pos, pos + |part|, a, b)
    ensures a <= pos <= pos + |part| <= b
    ensures pos - a <= 43 && b - (pos + |part|) <= 43
    ensures Valid(text[a..b])
  {
    var low := BoundaryBelow(text, if pos < 40 then 0 else pos - 40);
    var high := BoundaryAbove(text, Min(pos + |part| + 40, |text|));
    SplitValid(text, b);
    assert IsBoundary(text[..b], a);
    SplitValid(text[..b], a);
    assert text[a..b] == text[..b][a..];
  }

  /** One round of the loop of `edit_file`. */
  method EditOnce(text: Text, edit: Edit, indent: Bytes) returns (next: Text, diff: Diff)
    requires edit.oldText.Some?
    ensures next == ApplyEdit(text, Normal(edit.oldText.value, indent), Normal(edit.newText, indent))
    ensures IsReport(text, edit, indent, diff)
  {
    hide Valid, ReplaceAll, IsBoundary, IsFloor, IsCeil, Normal, NormalizeWhitespace, Window;
    var normalizedOld := Normal(edit.oldText.value, indent);
    var normalizedNew := Normal(edit.newText, indent);
    var found := Find(text, normalizedOld);
    if found.Some? {
      var pos := found.value;
      var end := pos + |normalizedOld|;
      var contextStart := FloorCharBoundary(text, if pos < 40 then 0 else pos - 40);
      var contextEnd := CeilCharBoundary(text, Min(end + 40, |text|));
      WindowOrdered(text, pos, end, contextStart, contextEnd);
      diff := Replaced(edit.oldText.value, edit.newText, pos,
          DOTS + ReplaceAll(text[contextStart..contextEnd], [NEWLINE], ESCAPED_NEWLINE) + DOTS);
      ReplacementValid(text, normalizedOld, normalizedNew, pos);
      next := text[..pos] + normalizedNew + text[end..];
    } else {
      diff := NotFound(edit.oldText.value, edit.newText);
      next := text;
    }
  }

  lemma WindowOrdered(text: Bytes, pos: nat, end: nat, a: int, b: int)
    requires pos <= end <= |text|
    requires IsFloor(text, Min(if pos < 40 then 0 else pos - 40, |text|), a)
    requires IsCeil(text, Min(end + 40, |text|), b)
    ensures Window(text, pos, end, a, b)
  {
    assert Min(if pos < 40 then 0 else pos - 40, |text|) == if pos < 40 then 0 else pos - 40;
  }

  /** Report `k` describes edit `k`, made on the text that edits 0 to `k - 1` left. */
  ghost predicate Reported(content: Text, edits: seq<Edit>, indent: Bytes, diffs: seq<Diff>)
    requires |diffs| <= |edits| && Complete(edits, |diffs|)
  {
    forall k :: 0 <= k < |diffs| ==>
      IsReport(ApplyFirst(content, edits, k, indent), edits[k], indent, diffs[k])
  }

  lemma OneMoreReport(content: Text, edits: seq<Edit>, indent: Bytes, diffs: seq<Diff>, diff: Diff)
    requires |diffs| < |edits| && Complete(edits, |diffs| + 1) && Reported(content, edits, indent, diffs)
    requires IsReport(ApplyFirst(content, edits, |diffs|, indent), edits[|diffs|], indent, diff)
    ensures Reported(content, edits, indent, diffs + [diff])
  {
    hide IsReport, ApplyFirst, Valid;
  }

  /** The loop of `edit_file`. */
  method EditFile(content: Text, edits: seq<Edit>, dryRun: bool) returns (r: Result<Outcome, EditError>)
    ensures r.Ok? <==> Complete(edits, |edits|)
    ensures r.Ok? ==> r.value.text == ApplyFirst(content, edits, |edits|, IndentOf(content))
    ensures r.Ok? ==> |r.value.diffs| == |edits| && Reported(content, edits, IndentOf(content), r.value.diffs)
    ensures r.Ok? ==> Edited(content, edits, IndentOf(content), r.value.text, r.value.diffs)
    ensures r.Ok? ==> r.value.written == if dryRun then None else Some(r.value.text)
  {
    hide Valid, IsReport, ApplyEdit, Normal, IndentOf, Reported;
    var indent := DetectIndent(content);
    var result := content;
    var diffs: seq<Diff> := [];
    assert Reported(content, edits, indent, []) by {
      NothingReported(content, edits, indent);
    }
    for k := 0 to |edits|
      invariant Complete(edits, k)
      invariant result == ApplyFirst(content, edits, k, indent)
      invariant |diffs| == k && Reported(content, edits, indent, diffs)
    {
      if edits[k].oldText.None? {
        return Err(MissingOldText);
      }
      var next, diff := EditOnce(result, edits[k], indent);
      OneMoreReport(content, edits, indent, diffs, diff);
      result, diffs := next, diffs + [diff];
    }
    ReportedStages(content, edits, indent, diffs);
    hide Edited;
    r := Ok(Outcome(result, diffs, if dryRun then None else Some(result)));
  }

  /** The text and the reports of a list of edits, told by the texts between the edits. */
  ghost predicate Edited(content: Text, edits: seq<Edit>, indent: Bytes, text: Text, diffs: seq<Diff>)
    requires Complete(edits, |edits|) && |diffs| == |edits|
  {
    exists texts :: Stages(content, edits, indent, texts) && texts[|edits|] == text
                    && forall k :: 0 <= k < |edits| ==> IsReport(texts[k], edits[k], indent, diffs[k])
  }

  lemma ReportedStages(content: Text, edits: seq<Edit>, indent: Bytes, diffs: seq<Diff>)
    requires Complete(edits, |edits|) && |diffs| == |edits| && Reported(content, edits, indent, diffs)
    ensures Edited(content, edits, indent, ApplyFirst(content, edits, |edits|, indent), diffs)
  {
    var texts := StagesOf(content, edits, indent);
    hide Valid, Stages, ApplyFirst, IsReport;
  }

  lemma NothingReported(content: Text, edits: seq<Edit>, indent: Bytes)
    ensures Reported(content, edits, indent, [])
  {
  }
}
