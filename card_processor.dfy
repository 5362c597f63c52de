/**
 * processText of the board-game card processor: the recognised text of a
 * page is cut into blocks at blank lines, and each block becomes a card
 * whose title is its first non-blank line and whose description is the
 * rest of the block, trimmed. Cards with an empty title or an empty
 * description are dropped.
 */
module CardProcessor {
  import opened JsString
  import opened SectionSplit

  /** One card: `{ title, description }`. */
  datatype Card = Card(title: string, description: string)

  /** The title used when the title line is the empty string. */
  const Untitled: string := "Untitled"

  /** A line made only of white space: one for which `line.trim().length > 0`
      is false (see BlankIffTrimEmpty). */
  predicate IsBlank(line: string) {
    AllWs(line)
  }

  /** The first non-blank line at or after `i`, if there is one. */
  function FirstNonBlankFrom(lines: seq<string>, i: nat): (r: Option<nat>)
    requires i <= |lines|
    ensures r.Some? ==> i <= r.value < |lines| && !IsBlank(lines[r.value])
    ensures r.Some? ==> forall j :: i <= j < r.value ==> IsBlank(lines[j])
    ensures r.None? ==> forall j :: i <= j < |lines| ==> IsBlank(lines[j])
    decreases |lines| - i
  {
    if i == |lines| then None
    else if !IsBlank(lines[i]) then Some(i)
    else FirstNonBlankFrom(lines, i + 1)
  }

  /** The value `titleIndex` has after the title search: the index of the
      first non-blank line, and 0 when every line is blank. */
  function TitleIndex(lines: seq<string>): (t: nat)
    ensures t == 0 || t < |lines|
    ensures |lines| > 0 ==> t < |lines|
    ensures forall j :: 0 <= j < t ==> IsBlank(lines[j])
    ensures (t < |lines| && !IsBlank(lines[t])) || (t == 0 && forall j :: 0 <= j < |lines| ==> IsBlank(lines[j]))
  {
    match FirstNonBlankFrom(lines, 0)
    case None => 0
    case Some(i) => i
  }

  /** The title search of processText: a `for` loop over the lines that
      stores the index of the first non-blank one and breaks. */
  method FindTitleIndex(lines: seq<string>) returns (titleIndex: nat)
    ensures titleIndex == TitleIndex(lines)
  {
    titleIndex := 0;
    for i := 0 to |lines|
      invariant titleIndex == 0
      invariant FirstNonBlankFrom(lines, i) == FirstNonBlankFrom(lines, 0)
    {
      BlankIffTrimEmpty(lines[i]);
      if |Trim(lines[i])| > 0 {
        titleIndex := i;
        break;
      }
    }
  }

  /** `line || 'Untitled'`: the empty string is the only falsy string. */
  function TitleOf(line: string): string {
    if line != "" then line else Untitled
  }

  /** The card built from a section's lines: the title line (or the
      fallback) and the trimmed join of the lines after it. */
  function LinesCard(lines: seq<string>): Card
    requires |lines| > 0
  {
    var t := TitleIndex(lines);
    Card(TitleOf(lines[t]), DescriptionAfter(lines, t))
  }

  /** `lines.slice(t + 1).join('\n').trim()`. */
  function DescriptionAfter(lines: seq<string>, t: nat): string
    requires t < |lines|
  {
    Trim(Join(lines[t + 1..]))
  }

  /** The card one section gives, before filtering. */
  function SectionCard(section: string): Card {
    LinesCard(SplitLines(section))
  }

  /** The callback processText maps over the sections, with its loop. */
  method BuildCard(section: string) returns (card: Card)
    ensures card == SectionCard(section)
  {
    var lines := SplitLines(section);
    var titleIndex := FindTitleIndex(lines);
    var title := TitleOf(lines[titleIndex]);
    var description := DescriptionAfter(lines, titleIndex);
    card := Card(title, description);
  }

  /** The filter `card.title && card.description`: both strings non-empty. */
  predicate Keep(card: Card) {
    card.title != "" && card.description != ""
  }

  /** `cards.filter(Keep)`. */
  function FilterCards(cards: seq<Card>): seq<Card>
    decreases |cards|
  {
    if |cards| == 0 then []
    else
      var last := cards[|cards| - 1];
      FilterCards(cards[..|cards| - 1]) + (if Keep(last) then [last] else [])
  }

  /** The positions in `cards` of the cards the filter keeps, in order. */
  function KeptIndices(cards: seq<Card>): seq<nat>
    decreases |cards|
  {
    if |cards| == 0 then []
    else
      KeptIndices(cards[..|cards| - 1]) + (if Keep(cards[|cards| - 1]) then [|cards| - 1] else [])
  }

  /** `sections.map(...)`: one card per section, in order. */
  function SectionCards(sections: seq<string>): (cards: seq<Card>)
    ensures |cards| == |sections|
    ensures forall i :: 0 <= i < |sections| ==> cards[i] == SectionCard(sections[i])
  {
    seq(|sections|, i requires 0 <= i < |sections| => SectionCard(sections[i]))
  }

  /** processText: split, map each section to its card, filter. */
  function ProcessText(text: string): seq<Card> {
    FilterCards(SectionCards(Split(text)))
  }

  // ---------------------------------------------------------------------
  // Properties of one section's card
  // ---------------------------------------------------------------------

  lemma BlankIffTrimEmpty(line: string)
    ensures IsBlank(line) <==> |Trim(line)| == 0
  {
    TrimSpec(line);
  }

  /** The description is empty exactly when every line after the title line
      is blank. */
  lemma DescriptionEmptyIff(lines: seq<string>, t: nat)
    requires t < |lines|
    ensures DescriptionAfter(lines, t) == "" <==> forall j :: t < j < |lines| ==> IsBlank(lines[j])
  {
    var rest := lines[t + 1..];
    TrimSpec(Join(rest));
    JoinAllWs(rest);
    assert (forall k :: 0 <= k < |rest| ==> AllWs(rest[k])) <==>
      (forall j :: t < j < |lines| ==> IsBlank(lines[j])) by {
      forall j | t < j < |lines| ensures lines[j] == rest[j - t - 1] {
      }
    }
  }

  /** The `card.title` half of the filter never drops anything: the title
      is the title line or, when that line is "", the fallback. The card is
      kept exactly when the lines hold at least two non-blank lines; in
      particular a section whose only non-blank line is its title line, or
      that has none, yields no card. */
  lemma KeptIffTwoNonBlankLines(lines: seq<string>)
    requires |lines| > 0
    ensures LinesCard(lines).title != ""
    ensures Keep(LinesCard(lines)) <==>
      exists i, j :: 0 <= i < j < |lines| && !IsBlank(lines[i]) && !IsBlank(lines[j])
  {
    var t := TitleIndex(lines);
    var c := LinesCard(lines);
    DescriptionEmptyIff(lines, t);
    assert c.description == DescriptionAfter(lines, t);
    if c.description != "" {
      var j :| t < j < |lines| && !IsBlank(lines[j]);
      assert !IsBlank(lines[t]);
      assert 0 <= t < j < |lines| && !IsBlank(lines[t]) && !IsBlank(lines[j]);
    }
    if exists i, j :: 0 <= i < j < |lines| && !IsBlank(lines[i]) && !IsBlank(lines[j]) {
      var i, j :| 0 <= i < j < |lines| && !IsBlank(lines[i]) && !IsBlank(lines[j]);
      assert t <= i;
      assert t < j;
    }
  }

  /** The title of a card that survives the filter is the first non-blank
      line, untrimmed: every line before it is blank and the "Untitled"
      fallback was not used. */
  lemma KeptCardTitle(lines: seq<string>)
    requires |lines| > 0 && Keep(LinesCard(lines))
    ensures var t := TitleIndex(lines);
      && LinesCard(lines).title == lines[t]
      && !IsBlank(lines[t])
      && forall j :: 0 <= j < t ==> IsBlank(lines[j])
  {
    KeptIffTwoNonBlankLines(lines);
    var i, j :| 0 <= i < j < |lines| && !IsBlank(lines[i]) && !IsBlank(lines[j]);
    assert !IsBlank(lines[TitleIndex(lines)]);
  }

  /** A description starts and ends with a character that is not white
      space, unless it is empty. */
  lemma DescriptionTrimmed(lines: seq<string>, t: nat)
    requires t < |lines|
    ensures var d := DescriptionAfter(lines, t); d == "" || (!IsWs(d[0]) && !IsWs(d[|d| - 1]))
  {
    TrimSpec(Join(lines[t + 1..]));
  }

  /** The description is the trim of what follows the title line in the
      joined text itself: with `head` the text up to the end of the title
      line, either the text ends there and the description is empty, or a
      newline follows and the description is the trim of the rest. */
  lemma DescriptionIsTrimmedRemainder(lines: seq<string>)
    requires |lines| > 0
    ensures var section, t := Join(lines), TitleIndex(lines);
      var head := Join(lines[..t + 1]);
      var d := LinesCard(lines).description;
      && head <= section
      && (|head| == |section| ==> d == "")
      && (|head| < |section| ==> section[|head|] == '\n' && d == Trim(section[|head| + 1..]))
  {
    var t := TitleIndex(lines);
    assert LinesCard(lines).description == DescriptionAfter(lines, t);
    RemainderAfterHead(lines, t);
  }

  /** The join of the lines up to `t` ends with line `t`. */
  lemma HeadEndsWithLine(lines: seq<string>, t: nat)
    requires t < |lines|
    ensures var head := Join(lines[..t + 1]);
      |lines[t]| <= |head| && head[|head| - |lines[t]|..] == lines[t]
  {
    if t > 0 {
      JoinSplitAt(lines[..t + 1], t);
      assert lines[..t + 1][..t] == lines[..t];
      assert lines[..t + 1][t..] == [lines[t]];
    }
  }

  /** What follows the join of the lines up to `t` in the join of all lines:
      nothing, or a newline and the join of the lines after `t`. */
  lemma RemainderAfterHead(lines: seq<string>, t: nat)
    requires t < |lines|
    ensures var section, head := Join(lines), Join(lines[..t + 1]);
      && head <= section
      && (|head| == |section| ==> DescriptionAfter(lines, t) == "")
      && (|head| < |section| ==> section[|head|] == '\n' && DescriptionAfter(lines, t) == Trim(section[|head| + 1..]))
  {
    var section, head := Join(lines), Join(lines[..t + 1]);
    if t + 1 < |lines| {
      JoinSplitAt(lines, t + 1);
      assert section == head + "\n" + Join(lines[t + 1..]);
      assert section[|head| + 1..] == Join(lines[t + 1..]);
    } else {
      assert lines[..t + 1] == lines;
      assert lines[t + 1..] == [];
    }
  }

  // ---------------------------------------------------------------------
  // The filter and the whole pipeline
  // ---------------------------------------------------------------------

  /** The filter keeps exactly the cards Keep accepts, in their order:
      the kept positions increase, the i-th output is the card at the i-th
      kept position, and a position is kept if and only if its card passes. */
  lemma {:induction false} FilterSpec(cards: seq<Card>)
    ensures var out, idx := FilterCards(cards), KeptIndices(cards);
      && |out| == |idx| <= |cards|
      && (forall k :: 0 <= k < |idx| ==> idx[k] < |cards| && out[k] == cards[idx[k]] && Keep(out[k]))
      && (forall k, l :: 0 <= k < l < |idx| ==> idx[k] < idx[l])
      && (forall i :: 0 <= i < |cards| ==> (Keep(cards[i]) <==> i in idx))
    decreases |cards|
  {
    if |cards| > 0 {
      var n := |cards| - 1;
      var init := cards[..n];
      FilterSpec(init);
      var out, idx := FilterCards(cards), KeptIndices(cards);
      var out', idx' := FilterCards(init), KeptIndices(init);
      var last := if Keep(cards[n]) then [cards[n]] else [];
      var lastIdx := if Keep(cards[n]) then [n] else [];
      assert out == out' + last;
      assert idx == idx' + lastIdx;
      forall k | 0 <= k < |idx|
        ensures idx[k] < |cards| && out[k] == cards[idx[k]] && Keep(out[k])
      {
        if k < |idx'| {
          assert out[k] == out'[k] && idx[k] == idx'[k];
          assert init[idx'[k]] == cards[idx'[k]];
        }
      }
      forall k, l | 0 <= k < l < |idx| ensures idx[k] < idx[l] {
        if l < |idx'| {
          assert idx[k] == idx'[k] && idx[l] == idx'[l];
        } else {
          assert idx[k] == idx'[k];
        }
      }
      forall i | 0 <= i < |cards| ensures Keep(cards[i]) <==> i in idx {
        if i < n {
          assert cards[i] == init[i];
          assert i in idx <==> i in idx';
        }
      }
    }
  }

  /** processText keeps the order of the blocks and makes at most one card
      per block: its output is the subsequence of the per-section cards at
      the kept positions, and a section is kept exactly when its card has a
      non-empty title and description. */
  lemma OrderAndCount(text: string)
    ensures var sections := Split(text); var cards := SectionCards(sections);
      var out, idx := ProcessText(text), KeptIndices(cards);
      && |out| == |idx| <= |sections|
      && (forall k :: 0 <= k < |idx| ==> idx[k] < |sections| && out[k] == SectionCard(sections[idx[k]]))
      && (forall k, l :: 0 <= k < l < |idx| ==> idx[k] < idx[l])
      && (forall i :: 0 <= i < |sections| ==> (Keep(SectionCard(sections[i])) <==> i in idx))
  {
    var sections := Split(text);
    var cards := SectionCards(sections);
    var out, idx := ProcessText(text), KeptIndices(cards);
    FilterSpec(cards);
    assert out == FilterCards(cards);
    forall k | 0 <= k < |idx| ensures idx[k] < |sections| && out[k] == SectionCard(sections[idx[k]]) {
      assert out[k] == cards[idx[k]];
    }
    forall i | 0 <= i < |sections| ensures Keep(SectionCard(sections[i])) <==> i in idx {
      assert cards[i] == SectionCard(sections[i]);
    }
  }

  /** What a returned card looks like against the section it came from: its
      title and description as the lines give them (TitleAndDescription),
      and where they sit in the section's own text (InBlockText). */
  predicate WellFormed(section: string, card: Card) {
    var lines := SplitLines(section);
    && |lines| > 0
    && TitleAndDescription(lines, card)
    && InBlockText(section, Join(lines[..TitleIndex(lines) + 1]), card.title, card.description)
  }

  /** The title is a non-blank line, holding no newline, with every line
      before it blank; the description is non-empty and has no white space
      at either end. */
  predicate TitleAndDescription(lines: seq<string>, card: Card) {
    var t := TitleIndex(lines);
    && t < |lines|
    && card.title == lines[t]
    && !IsBlank(card.title)
    && '\n' !in card.title
    && (forall j :: 0 <= j < t ==> IsBlank(lines[j]))
    && card.description != ""
    && !IsWs(card.description[0])
    && !IsWs(card.description[|card.description| - 1])
  }

  /** In the section's own text, `head` being the text up to the end of the
      title line: the title ends `head`, a newline follows it, and the
      description is the trim of everything after that newline. */
  predicate InBlockText(section: string, head: string, title: string, description: string)
  {
    && |title| <= |head| < |section|
    && section[|head| - |title|..|head|] == title
    && section[|head|] == '\n'
    && description == Trim(section[|head| + 1..])
  }

  /** A kept card has the title and description a well-formed card has. */
  lemma KeptTitleAndDescription(lines: seq<string>)
    requires |lines| > 0 && Keep(LinesCard(lines))
    requires forall k :: 0 <= k < |lines| ==> '\n' !in lines[k]
    ensures TitleAndDescription(lines, LinesCard(lines))
  {
    var t := TitleIndex(lines);
    KeptCardTitle(lines);
    DescriptionTrimmed(lines, t);
    assert LinesCard(lines).description == DescriptionAfter(lines, t);
    assert '\n' !in lines[t];
  }

  /** When line `t` is not the last line, it ends the join of the lines up
      to `t`, a newline follows it in the join of all lines, and the
      description after it is the trim of the rest: InBlockText holds. */
  lemma TitleAndDescriptionInBlock(lines: seq<string>, t: nat)
    requires t + 1 < |lines|
    ensures InBlockText(Join(lines), Join(lines[..t + 1]), lines[t], DescriptionAfter(lines, t))
  {
    var head, rest := Join(lines[..t + 1]), Join(lines[t + 1..]);
    JoinSplitAt(lines, t + 1);
    HeadEndsWithLine(lines, t);
    assert DescriptionAfter(lines, t) == Trim(rest);
    InBlockTextOfParts(Join(lines), head, rest, lines[t], DescriptionAfter(lines, t));
  }

  /** A title that ends `head`, followed by a newline and `rest`, with the
      description the trim of `rest`. */
  lemma InBlockTextOfParts(section: string, head: string, rest: string, title: string, description: string)
    requires section == head + "\n" + rest && description == Trim(rest)
    requires |title| <= |head| && head[|head| - |title|..] == title
    ensures InBlockText(section, head, title, description)
  {
    assert section[|head| + 1..] == rest;
    assert section[|head| - |title|..|head|] == head[|head| - |title|..];
  }

  /** Every card that survives the filter is well formed. */
  lemma KeptCardWellFormed(section: string)
    requires Keep(SectionCard(section))
    ensures WellFormed(section, SectionCard(section))
  {
    var lines := SplitLines(section);
    var t := TitleIndex(lines);
    var c := SectionCard(section);
    JoinOfSplitLines(section);
    KeptTitleAndDescription(lines);
    KeptCardTitle(lines);
    assert c.title == lines[t] && c.description == DescriptionAfter(lines, t);
    DescriptionEmptyIff(lines, t);
    TitleAndDescriptionInBlock(lines, t);
  }

  /** Every card processText returns is well formed against its section. */
  lemma CardsAreWellFormed(text: string)
    ensures var sections := Split(text); var out := ProcessText(text);
      var idx := KeptIndices(SectionCards(sections));
      |out| == |idx| &&
      forall k :: 0 <= k < |out| ==> idx[k] < |sections| && WellFormed(sections[idx[k]], out[k])
  {
    var sections := Split(text);
    var out := ProcessText(text);
    var idx := KeptIndices(SectionCards(sections));
    OrderAndCount(text);
    forall k | 0 <= k < |out|
      ensures idx[k] < |sections| && WellFormed(sections[idx[k]], out[k])
    {
      KeptCardWellFormed(sections[idx[k]]);
    }
  }

  /** A section of a single line, with no newline, yields a card the filter
      drops: nothing follows the title line, so the description is "". */
  lemma OneLineSectionDropped(section: string)
    requires '\n' !in section
    ensures !Keep(SectionCard(section))
  {
    SplitLinesOfJoin([section]);
    assert SplitLines(section) == [section];
  }

  /** The 'Untitled' fallback is taken only when every line is blank, so a
      card carrying it is always dropped by the filter. */
  lemma UntitledFallbackDropped(lines: seq<string>)
    requires |lines| > 0 && lines[TitleIndex(lines)] == ""
    ensures LinesCard(lines).title == Untitled
    ensures !Keep(LinesCard(lines))
  {
    var t := TitleIndex(lines);
    assert IsBlank(lines[t]);
    KeptIffTwoNonBlankLines(lines);
  }

  /** A white-space section yields a card the filter drops: all its lines
      are blank, so its description trims to "". */
  lemma BlankSectionDropped(section: string)
    requires AllWs(section)
    ensures !Keep(SectionCard(section))
  {
    var lines := SplitLines(section);
    JoinOfSplitLines(section);
    JoinAllWs(lines);
    KeptIffTwoNonBlankLines(lines);
  }

  /** A text made only of white space, "" included, yields no card. */
  lemma AllWhitespaceYieldsNoCards(text: string)
    requires AllWs(text)
    ensures ProcessText(text) == []
  {
    var sections := Split(text);
    SplitSpec(text);
    InterleaveAllWs(sections, Separators(text));
    OrderAndCount(text);
    var idx := KeptIndices(SectionCards(sections));
    if idx != [] {
      BlankSectionDropped(sections[idx[0]]);
    }
  }

  /** Filtering a list whose every card is kept changes nothing; in
      particular the filter is idempotent (see FilterIdempotent). */
  lemma {:induction false} FilterAllKept(cards: seq<Card>)
    requires forall i :: 0 <= i < |cards| ==> Keep(cards[i])
    ensures FilterCards(cards) == cards
    decreases |cards|
  {
    if |cards| > 0 {
      var n := |cards| - 1;
      FilterAllKept(cards[..n]);
      assert cards[..n] + [cards[n]] == cards;
    }
  }

  /** Filtering twice is filtering once. */
  lemma FilterIdempotent(cards: seq<Card>)
    ensures FilterCards(FilterCards(cards)) == FilterCards(cards)
  {
    FilterSpec(cards);
    FilterAllKept(FilterCards(cards));
  }

  /** A single line with no white space at either end. */
  predicate TrimmedLine(l: string) {
    l != [] && '\n' !in l && !IsWs(l[0]) && !IsWs(l[|l| - 1])
  }

  /** A section of a title line and a description line gives exactly that
      title and that description. */
  lemma TwoLineSectionCard(a: string, b: string)
    requires TrimmedLine(a) && TrimmedLine(b)
    ensures SectionCard(a + "\n" + b) == Card(a, b)
  {
    var lines := [a, b];
    SplitLinesOfJoin(lines);
    assert Join(lines) == a + "\n" + b by {
      assert lines[1..] == [b];
    }
    assert !IsBlank(lines[0]);
    assert lines[1..] == [b];
    TrimOfTrimmed(b);
  }

  /** A two-line section is loose: its newline is followed by the first,
      non-white-space, character of the second line. */
  lemma TwoLineSectionLoose(a: string, b: string)
    requires TrimmedLine(a) && TrimmedLine(b)
    ensures LooseLines(a + "\n" + b)
  {
    var t := a + "\n" + b;
    forall m | 0 <= m < |t| && m != |a| ensures t[m] != '\n' {
      if m < |a| {
        assert t[m] == a[m];
        assert a[m] in a;
      } else {
        assert t[m] == b[m - |a| - 1];
        assert b[m - |a| - 1] in b;
      }
    }
    assert t[|a| + 1] == b[0];
  }

  /** Two cards of one title line and one description line each, separated
      by an empty line, come out as exactly those two cards, in order. */
  lemma TwoCardText(a: string, b: string, c: string, d: string)
    requires TrimmedLine(a) && TrimmedLine(b) && TrimmedLine(c) && TrimmedLine(d)
    ensures ProcessText((a + "\n" + b) + "\n\n" + (c + "\n" + d)) == [Card(a, b), Card(c, d)]
  {
    var x, y := a + "\n" + b, c + "\n" + d;
    TwoLineSectionLoose(a, b);
    TwoLineSectionLoose(c, d);
    assert y[0] == c[0];
    SplitTwoSections(x, y);
    TwoLineSectionCard(a, b);
    TwoLineSectionCard(c, d);
    KeptPair(x, y, Card(a, b), Card(c, d));
  }

  /** Two sections whose cards are both kept come out as those two cards. */
  lemma KeptPair(x: string, y: string, cx: Card, cy: Card)
    requires SectionCard(x) == cx && SectionCard(y) == cy && Keep(cx) && Keep(cy)
    ensures FilterCards(SectionCards([x, y])) == [cx, cy]
  {
    var cards := SectionCards([x, y]);
    assert |cards| == 2 && cards[0] == cx && cards[1] == cy;
    forall i | 0 <= i < |cards| ensures Keep(cards[i]) {
      assert i == 0 || i == 1;
    }
    FilterAllKept(cards);
    PairOf(cards, cx, cy);
  }

  lemma PairOf(cards: seq<Card>, c0: Card, c1: Card)
    requires |cards| == 2 && cards[0] == c0 && cards[1] == c1
    ensures cards == [c0, c1]
  {
  }

  /** The card sheet of two monsters, the text
      "Dragon Card.\nA fierce beast.\n\nGoblin Card.\nA sneaky foe.". */
  lemma DragonGoblinExample()
    ensures ProcessText(("Dragon Card." + "\n" + "A fierce beast.") + "\n\n" + ("Goblin Card." + "\n" + "A sneaky foe."))
      == [Card("Dragon Card.", "A fierce beast."), Card("Goblin Card.", "A sneaky foe.")]
  {
    assert TrimmedLine("Dragon Card.");
    assert TrimmedLine("A fierce beast.");
    assert TrimmedLine("Goblin Card.");
    assert TrimmedLine("A sneaky foe.");
    TwoCardText("Dragon Card.", "A fierce beast.", "Goblin Card.", "A sneaky foe.");
  }
}
