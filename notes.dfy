/**
 * The rules both versions of the note checker share. Each rule is a specification function of the
 * note's lines, giving its result and the messages it logs, and a method that applies the rule
 * step by step as the checker does, logging through a `Logger`.
 */
module Notes {
  import opened Wrappers
  import opened Text
  import opened Logging
  import opened Characs

  /** The exceptions the checkers raise. */
  datatype Failure =
    | HeadingOnLastLine     // IndexError: the line after the characteristics heading is read
    | NoTagLine             // TypeError: `"person" in None` when no line of the note has words
    | NoCharacteristics     // the setter on a note without a characteristics block

  predicate StartsWith(s: string, p: string) {
    |p| <= |s| && s[..|p|] == p
  }

  // ---------------------------------------------------------------------------------------------
  // Tags

  const NoTagsMessage := "No tags found"

  /** A word that counts as a tag: '#' then something other than '#'. */
  predicate IsTagToken(t: string) {
    |t| >= 2 && t[0] == '#' && t[1] != '#'
  }

  /** The index of the last line with a word, or -1. */
  function LastWithWords(lines: seq<string>): (i: int)
    ensures -1 <= i < |lines|
    ensures i >= 0 ==> Words(lines[i]) != []
    ensures forall j | i < j < |lines| :: Words(lines[j]) == []
  {
    if lines == [] then -1
    else if Words(lines[|lines| - 1]) != [] then |lines| - 1
    else
      var i := LastWithWords(lines[..|lines| - 1]);
      assert forall j | i < j < |lines| - 1 :: lines[..|lines| - 1][j] == lines[j];
      i
  }

  /** `_get_tags`: the tags and the messages logged. None when no line has a word. */
  function TagsOf(lines: seq<string>): (r: (Option<seq<string>>, seq<Entry>))
    ensures r.0.None? <==> forall j | 0 <= j < |lines| :: IsBlank(lines[j])
    ensures r.1 == (if r.0 == Some([]) then [Entry(Warning, NoTagsMessage)] else [])
  {
    var i := LastWithWords(lines);
    if i < 0 then
      assert forall j | 0 <= j < |lines| :: Words(lines[j]) == [];
      (None, [])
    else
      var ws := Words(lines[i]);
      if forall k | 0 <= k < |ws| :: IsTagToken(ws[k]) then
        (Some(seq(|ws|, k requires 0 <= k < |ws| => ws[k][1..])), [])
      else (Some([]), [Entry(Warning, NoTagsMessage)])
  }

  /** Blank lines at the end of a note do not change its tags. */
  lemma TagsSkipBlankLines(lines: seq<string>, blank: string)
    requires IsBlank(blank)
    ensures TagsOf(lines + [blank]) == TagsOf(lines)
  {
    assert (lines + [blank])[..|lines|] == lines;
  }

  /** Only the last line with a word is read for tags. */
  lemma TagsOnlyLastLine(lines: seq<string>, line: string)
    requires !IsBlank(line)
    ensures TagsOf(lines + [line]) == TagsOf([line])
  {
  }

  /** A last line "#a #b" gives the tags a and b. */
  lemma TagLineReads(lines: seq<string>, a: string, b: string)
    requires a != [] && NoSpace(a) && a[0] != '#'
    requires b != [] && NoSpace(b) && b[0] != '#'
    ensures TagsOf(lines + ["#" + a + " #" + b]).0 == Some([a, b])
  {
    var x, y := "#" + a, "#" + b;
    assert NoSpace(x) by { forall i | 0 <= i < |x| ensures !IsSpace(x[i]) { if i > 0 { assert x[i] == a[i - 1]; } } }
    assert NoSpace(y) by { forall i | 0 <= i < |y| ensures !IsSpace(y[i]) { if i > 0 { assert y[i] == b[i - 1]; } } }
    var line := "#" + a + " #" + b;
    var ws := Words(line);
    assert ws == [x, y] by {
      assert line == x + " " + y;
      WordsOfTwo(x, y);
    }
    assert LastWithWords(lines + [line]) == |lines| by {
      assert (lines + [line])[|lines|] == line;
    }
    assert IsTagToken(ws[0]) && IsTagToken(ws[1]);
    var tags := seq(|ws|, k requires 0 <= k < |ws| => ws[k][1..]);
    assert tags == [a, b] by {
      assert tags[0] == a && tags[1] == b;
    }
  }

  /** A last line holding a word that is not a tag gives no tags and one warning. */
  lemma NonTagLineWarns(lines: seq<string>, w: string)
    requires w != [] && NoSpace(w) && w[0] != '#'
    ensures TagsOf(lines + [w]) == (Some([]), [Entry(Warning, NoTagsMessage)])
  {
    WordsOfWord(w, []);
    assert w + [] == w;
  }

  /** `_get_tags`: scans the lines from the end for the first one with words. */
  method ReadTags(lines: seq<string>, logger: Logger) returns (tags: Option<seq<string>>)
    requires logger.Valid()
    modifies logger
    ensures logger.Valid()
    ensures tags == TagsOf(lines).0
    ensures logger.entries == old(logger.entries) + TagsOf(lines).1
  {
    var i := |lines|;
    while i > 0
      invariant 0 <= i <= |lines|
      invariant forall j | i <= j < |lines| :: Words(lines[j]) == []
    {
      i := i - 1;
      var ws := Words(lines[i]);
      if ws != [] {
        if forall k | 0 <= k < |ws| :: IsTagToken(ws[k]) {
          tags := Some(seq(|ws|, k requires 0 <= k < |ws| => ws[k][1..]));
          assert TagsOf(lines) == (tags, []) by { LastWithWordsIs(lines, i); }
          assert logger.entries == old(logger.entries) + [];
        } else {
          logger.Log(Warning, NoTagsMessage);
          tags := Some([]);
          assert TagsOf(lines) == (tags, [Entry(Warning, NoTagsMessage)]) by { LastWithWordsIs(lines, i); }
        }
        return;
      }
    }
    tags := None;
    assert TagsOf(lines) == (None, []) by { LastWithWordsIs(lines, -1); }
    assert logger.entries == old(logger.entries) + [];
  }

  lemma {:induction false} LastWithWordsIs(lines: seq<string>, i: int)
    requires -1 <= i < |lines|
    requires i >= 0 ==> Words(lines[i]) != []
    requires forall j | i < j < |lines| :: Words(lines[j]) == []
    ensures LastWithWords(lines) == i
  {
    if lines != [] && i < |lines| - 1 {
      var front := lines[..|lines| - 1];
      assert forall j | i < j < |front| :: front[j] == lines[j];
      assert i >= 0 ==> front[i] == lines[i];
      LastWithWordsIs(front, i);
    }
  }

  // ---------------------------------------------------------------------------------------------
  // The characteristics heading

  const WrongCaseMessage := "Characteristics heading has wrong case"
  const WrongLevelMessage := "Characteristics heading has wrong level"
  const NoLineBreakMessage := "Missing line break after characteristics heading"

  /** What follows the first space of a line (the whole line when it has none). */
  function HeadingText(line: string): string {
    line[IndexOf(line, ' ') + 1..]
  }

  /** A heading line whose text is "characteristics" in any case. */
  predicate IsCharacHeading(line: string) {
    StartsWith(line, "#") && Lower(HeadingText(line)) == "characteristics"
  }

  /** The error for a non-blank line right after the heading. */
  function LineBreakLog(lines: seq<string>, h: nat): seq<Entry>
    requires h + 1 < |lines|
  {
    if IsBlank(lines[h + 1]) then [] else [Entry(Error, NoLineBreakMessage)]
  }

  /** The errors logged on the heading found. */
  function HeadingLog(line: string): seq<Entry> {
    (if HeadingText(line) != "Characteristics" then [Entry(Error, WrongCaseMessage)] else [])
    + (if !StartsWith(line, "## ") then [Entry(Error, WrongLevelMessage)] else [])
  }

  lemma HeadingTextAfterLevel(line: string)
    requires StartsWith(line, "## ")
    ensures HeadingText(line) == line[3..]
  {
    assert line == "##" + [' '] + line[3..];
    IndexOfAfter("##", line[3..], ' ');
  }

  /** "## Characteristics" is a heading that logs nothing... */
  lemma HeadingCleanOfTarget(line: string)
    requires line == "## Characteristics"
    ensures HeadingLog(line) == []
  {
    assert line[..3] == "## ";
    HeadingTextAfterLevel(line);
    assert line[3..] == "Characteristics";
  }

  /** ...and the only one. */
  lemma HeadingTargetOfClean(line: string)
    requires HeadingLog(line) == []
    ensures line == "## Characteristics"
  {
    assert StartsWith(line, "## ") && HeadingText(line) == "Characteristics";
    HeadingTextAfterLevel(line);
    assert line == line[..3] + line[3..];
  }

  /** A heading that logs nothing is a characteristics heading. */
  lemma CleanHeadingMatches(line: string)
    requires HeadingLog(line) == []
    ensures IsCharacHeading(line)
  {
    assert HeadingText(line) == "Characteristics";
    LowerCharacteristics();
    assert line[..3][..1] == line[..1];
  }

  lemma LowerCharacteristics()
    ensures Lower("Characteristics") == "characteristics"
  {
    var lowered := Lower("Characteristics");
    assert lowered[0] == 'c' && lowered[1] == 'h' && lowered[2] == 'a' && lowered[3] == 'r';
    assert lowered[4] == 'a' && lowered[5] == 'c' && lowered[6] == 't' && lowered[7] == 'e';
    assert lowered[8] == 'r' && lowered[9] == 'i' && lowered[10] == 's' && lowered[11] == 't';
    assert lowered[12] == 'i' && lowered[13] == 'c' && lowered[14] == 's';
  }

  /** The first characteristics heading of a note whose earlier lines hold none. */
  lemma CleanHeadingFound(lines: seq<string>, h: nat)
    requires h < |lines| && lines[h] == "## Characteristics"
    requires forall j | 0 <= j < h :: !IsCharacHeading(lines[j])
    ensures FirstHeading(lines) == Some(h)
  {
    HeadingCleanOfTarget(lines[h]);
    CleanHeadingMatches(lines[h]);
  }

  /** The index of the first characteristics heading. */
  function FirstHeading(lines: seq<string>): (r: Option<nat>)
    ensures r.Some? ==> r.value < |lines| && IsCharacHeading(lines[r.value])
    ensures forall j | 0 <= j < |lines| && (r.None? || j < r.value) :: !IsCharacHeading(lines[j])
  {
    if lines == [] then None
    else
      var front := lines[..|lines| - 1];
      var r := FirstHeading(front);
      FrontHeadings(lines, front, if r.Some? then r.value else |front|);
      if r.Some? then r
      else if IsCharacHeading(lines[|lines| - 1]) then Some(|lines| - 1)
      else None
  }

  /** A heading with none before it is the first heading. */
  lemma FirstHeadingAt(lines: seq<string>, h: nat)
    requires h < |lines| && IsCharacHeading(lines[h])
    requires forall j | 0 <= j < h :: !IsCharacHeading(lines[j])
    ensures FirstHeading(lines) == Some(h)
  {
    var r := FirstHeading(lines);
    assert r.Some? && r.value <= h by {
      assert IsCharacHeading(lines[h]);
    }
  }

  /** The lines of a prefix before n, heading-free there, are the note's lines before n. */
  lemma FrontHeadings(lines: seq<string>, front: seq<string>, n: nat)
    requires n <= |front| <= |lines| && front == lines[..|front|]
    requires forall j | 0 <= j < n :: !IsCharacHeading(front[j])
    ensures forall j | 0 <= j < n :: !IsCharacHeading(lines[j])
  {
    forall j | 0 <= j < n ensures !IsCharacHeading(lines[j]) {
      assert lines[j] == front[j];
    }
  }

  /** The errors logged on the heading found: its case, then its level. */
  method LogHeading(line: string, logger: Logger)
    requires logger.Valid()
    modifies logger
    ensures logger.Valid()
    ensures logger.entries == old(logger.entries) + HeadingLog(line)
  {
    var heading := HeadingText(line);
    if heading != "Characteristics" {
      logger.Log(Error, WrongCaseMessage);
    }
    if !StartsWith(line, "## ") {
      logger.Log(Error, WrongLevelMessage);
    }
  }

  /** The heading search of `_get_characteristics`: the first heading and its errors. */
  method FindHeading(lines: seq<string>, logger: Logger) returns (h: Option<nat>)
    requires logger.Valid()
    modifies logger
    ensures logger.Valid()
    ensures h == FirstHeading(lines)
    ensures logger.entries == old(logger.entries) + (if h.Some? then HeadingLog(lines[h.value]) else [])
  {
    var i := 0;
    while i < |lines|
      invariant 0 <= i <= |lines|
      invariant FirstHeading(lines[..i]) == None
      invariant logger.Valid() && logger.entries == old(logger.entries)
    {
      FirstHeadingStep(lines, i);
      var line := lines[i];
      if StartsWith(line, "#") && Lower(HeadingText(line)) == "characteristics" {
        LogHeading(line, logger);
        FirstHeadingPrefix(lines, i + 1);
        return Some(i);
      }
      i := i + 1;
    }
    assert lines[..i] == lines;
    h := None;
  }

  lemma FirstHeadingStep(lines: seq<string>, i: nat)
    requires i < |lines| && FirstHeading(lines[..i]) == None
    ensures FirstHeading(lines[..i + 1]) == if IsCharacHeading(lines[i]) then Some(i) else None
  {
    assert lines[..i + 1][..i] == lines[..i];
    assert lines[..i + 1][i] == lines[i];
  }

  /** A heading found in a prefix is the note's first heading. */
  lemma {:induction false} FirstHeadingPrefix(lines: seq<string>, n: nat)
    requires n <= |lines| && FirstHeading(lines[..n]).Some?
    ensures FirstHeading(lines) == FirstHeading(lines[..n])
    decreases |lines|
  {
    if n < |lines| {
      var front := lines[..|lines| - 1];
      assert front[..n] == lines[..n];
      FirstHeadingPrefix(front, n);
    } else {
      assert lines[..n] == lines;
    }
  }

  // ---------------------------------------------------------------------------------------------
  // The characteristics block

  const DuplicateSuffix := " appears twice in characteristics block"

  /** The error for a key the block already holds. */
  function DuplicateLog(c: Characs, k: string): seq<Entry> {
    if HasKey(c, k) then [Entry(Error, k + DuplicateSuffix)] else []
  }

  /** Reading one block line into the dictionary and the messages so far. */
  function Step(state: (Characs, seq<Entry>), line: string): (Characs, seq<Entry>) {
    var e := KeyedEntry(line);
    if e.None? then state
    else (Put(state.0, e.value.0, e.value.1), state.1 + DuplicateLog(state.0, e.value.0))
  }

  /** The dictionary and the messages that reading block lines in order produces. */
  function ParseLines(ls: seq<string>): (Characs, seq<Entry>) {
    if ls == [] then ([], []) else Step(ParseLines(ls[..|ls| - 1]), ls[|ls| - 1])
  }

  /** Reading block lines from a given dictionary and log. */
  function ParseFrom(state: (Characs, seq<Entry>), ls: seq<string>): (Characs, seq<Entry>) {
    if ls == [] then state else Step(ParseFrom(state, ls[..|ls| - 1]), ls[|ls| - 1])
  }

  /** Starting from an earlier log only puts that log in front of the messages. */
  lemma {:induction false} ParseFromLog(log: seq<Entry>, ls: seq<string>)
    ensures ParseFrom(([], log), ls) == (ParseLines(ls).0, log + ParseLines(ls).1)
  {
    if ls != [] {
      var front := ls[..|ls| - 1];
      ParseFromLog(log, front);
      var p := ParseLines(front);
      var line := ls[|ls| - 1];
      assert ParseLines(ls) == Step(p, line);
      assert ParseFrom(([], log), ls) == Step((p.0, log + p.1), line);
      var e := KeyedEntry(line);
      if e.Some? {
        var d := DuplicateLog(p.0, e.value.0);
        assert log + p.1 + d == log + (p.1 + d);
      }
    } else {
      assert log + [] == log;
    }
  }

  lemma ParseFromAt(state: (Characs, seq<Entry>), lines: seq<string>, i: nat, j: nat)
    requires i <= j < |lines|
    ensures ParseFrom(state, lines[i..j + 1]) == Step(ParseFrom(state, lines[i..j]), lines[j])
  {
    assert lines[i..j + 1][..j - i] == lines[i..j];
    assert lines[i..j + 1][j - i] == lines[j];
  }

  lemma ParseFromNext(state: (Characs, seq<Entry>), lines: seq<string>, i: nat, j: nat,
                      before: (Characs, seq<Entry>), after: (Characs, seq<Entry>))
    requires i <= j < |lines| && before == ParseFrom(state, lines[i..j])
    requires KeyedEntry(lines[j]).None? ==> after == before
    requires KeyedEntry(lines[j]).Some? ==>
      var (k, v) := KeyedEntry(lines[j]).value;
      after == (Put(before.0, k, v), before.1 + DuplicateLog(before.0, k))
    ensures after == ParseFrom(state, lines[i..j + 1])
  {
    ParseFromAt(state, lines, i, j);
  }

  /** What the block reading builds is a dictionary: no key twice. */
  lemma {:induction false} ParseLinesDistinct(ls: seq<string>)
    ensures DistinctKeys(ParseLines(ls).0)
  {
    if ls != [] {
      var prev := ParseLines(ls[..|ls| - 1]);
      ParseLinesDistinct(ls[..|ls| - 1]);
      var e := KeyedEntry(ls[|ls| - 1]);
      if e.Some? {
        PutLookup(prev.0, e.value.0, e.value.1);
      }
    }
  }

  /** The number of block lines that carry an entry. */
  function KeyedCount(ls: seq<string>): nat {
    if ls == [] then 0
    else KeyedCount(ls[..|ls| - 1]) + if KeyedEntry(ls[|ls| - 1]).Some? then 1 else 0
  }

  /** The value of the last line that carries key k: the reference for what the block stores. */
  function LastValue(ls: seq<string>, k: string): Option<string> {
    if ls == [] then None
    else
      match KeyedEntry(ls[|ls| - 1])
      case Some((key, v)) => if key == k then Some(v) else LastValue(ls[..|ls| - 1], k)
      case None => LastValue(ls[..|ls| - 1], k)
  }

  /** Each key reads the value of its last line: a repeated key overwrites. */
  lemma {:induction false} ParsedValueIsLast(ls: seq<string>, k: string)
    ensures Get(ParseLines(ls).0, k) == LastValue(ls, k)
  {
    if ls != [] {
      var front := ls[..|ls| - 1];
      var prev := ParseLines(front);
      ParsedValueIsLast(front, k);
      ParseLinesDistinct(front);
      var e := KeyedEntry(ls[|ls| - 1]);
      if e.Some? {
        var (key, v) := e.value;
        PutLookup(prev.0, key, v);
        assert ParseLines(ls).0 == Put(prev.0, key, v);
        if key == k {
          assert LastValue(ls, k) == Some(v);
        } else {
          assert LastValue(ls, k) == LastValue(front, k);
        }
      } else {
        assert ParseLines(ls) == prev;
        assert LastValue(ls, k) == LastValue(front, k);
      }
    }
  }

  /** Every line with an entry either adds a key or logs one duplicate error, so the errors
      number the entry lines less the keys; and they are all errors. */
  lemma {:induction false} DuplicatesCounted(ls: seq<string>)
    ensures |ParseLines(ls).0| + |ParseLines(ls).1| == KeyedCount(ls)
    ensures forall i | 0 <= i < |ParseLines(ls).1| :: ParseLines(ls).1[i].kind == Error
  {
    if ls != [] {
      var front := ls[..|ls| - 1];
      DuplicatesCounted(front);
      var prev := ParseLines(front);
      var e := KeyedEntry(ls[|ls| - 1]);
      if e.Some? {
        PutShape(prev.0, e.value.0, e.value.1);
        assert ParseLines(ls) == Step(prev, ls[|ls| - 1]);
      }
    }
  }

  lemma {:induction false} KeyedCountBound(ls: seq<string>)
    ensures KeyedCount(ls) <= |ls|
  {
    if ls != [] {
      KeyedCountBound(ls[..|ls| - 1]);
    }
  }

  lemma ParseLinesSnoc(ls: seq<string>, line: string)
    ensures ParseLines(ls + [line]) == Step(ParseLines(ls), line)
  {
    assert (ls + [line])[..|ls|] == ls;
  }

  lemma ParseLinesAt(lines: seq<string>, i: nat, j: nat)
    requires i <= j < |lines|
    ensures ParseLines(lines[i..j + 1]) == Step(ParseLines(lines[i..j]), lines[j])
  {
    assert lines[i..j + 1] == lines[i..j] + [lines[j]];
    ParseLinesSnoc(lines[i..j], lines[j]);
  }

  /** A line with a key not yet seen appends its entry and logs nothing. */
  lemma StepNewKey(state: (Characs, seq<Entry>), line: string, k: string, v: string)
    requires KeyedEntry(line) == Some((k, v)) && !HasKey(state.0, k)
    ensures Step(state, line) == (state.0 + [(k, v)], state.1)
  {
    PutShape(state.0, k, v);
    assert state.1 + [] == state.1;
  }

  lemma RenderSnoc(c: Characs)
    requires c != []
    ensures Render(c) == Render(c[..|c| - 1]) + [RenderLine(c[|c| - 1].0, c[|c| - 1].1)]
  {
  }

  /** Writing one more entry with a new key after a block that reads back reads back too. */
  lemma RenderReadsSnoc(front: Characs, k: string, v: string)
    requires ParseLines(Render(front)) == (front, [])
    requires !HasKey(front, k) && Writable(k, v)
    ensures ParseLines(Render(front + [(k, v)])) == (front + [(k, v)], [])
  {
    var c := front + [(k, v)];
    var line := RenderLine(k, v);
    assert c[..|c| - 1] == front;
    RenderSnoc(c);
    ParseLinesSnoc(Render(front), line);
    RenderLineReads(k, v);
    StepNewKey((front, []), line, k, v);
  }

  /** The rendered lines of a dictionary read back as that dictionary, without messages. */
  lemma {:induction false} RenderReads(c: Characs)
    requires DistinctKeys(c)
    requires forall i | 0 <= i < |c| :: Writable(c[i].0, c[i].1)
    ensures ParseLines(Render(c)) == (c, [])
  {
    if c != [] {
      var front := c[..|c| - 1];
      var k, v := c[|c| - 1].0, c[|c| - 1].1;
      assert c == front + [(k, v)];
      assert DistinctKeys(front) && !HasKey(front, k) by {
        assert forall i | 0 <= i < |front| :: front[i] == c[i];
      }
      assert forall i | 0 <= i < |front| :: Writable(front[i].0, front[i].1) by {
        assert forall i | 0 <= i < |front| :: front[i] == c[i];
      }
      RenderReads(front);
      RenderReadsSnoc(front, k, v);
    }
  }

  /** How many lines from index i on contain a ':' before the first one that does not. */
  function BlockLen(lines: seq<string>, i: nat): (n: nat)
    requires i <= |lines|
    ensures i + n <= |lines|
    decreases |lines| - i
  {
    if i == |lines| || ':' !in lines[i] then 0 else 1 + BlockLen(lines, i + 1)
  }

  /** The block is the run of lines with a ':' from line i on, and ends at one without. */
  lemma {:induction false} BlockLenShape(lines: seq<string>, i: nat)
    requires i <= |lines|
    ensures var n := BlockLen(lines, i);
      (forall j | i <= j < i + n :: ':' in lines[j]) && (i + n < |lines| ==> ':' !in lines[i + n])
    decreases |lines| - i
  {
    if i < |lines| && ':' in lines[i] {
      BlockLenShape(lines, i + 1);
    }
  }

  lemma {:induction false} BlockLenIs(lines: seq<string>, i: nat, j: nat)
    requires i <= j <= |lines|
    requires forall m | i <= m < j :: ':' in lines[m]
    requires j == |lines| || ':' !in lines[j]
    ensures BlockLen(lines, i) == j - i
    decreases j - i
  {
    if i < j {
      BlockLenIs(lines, i + 1, j);
    }
  }

  /** The block read from line i: the dictionary and the duplicate-key errors. */
  function BlockAt(lines: seq<string>, i: nat): (Characs, seq<Entry>)
    requires i <= |lines|
  {
    ParseLines(lines[i..i + BlockLen(lines, i)])
  }

  /** The block read from line i is a dictionary with no more entries than the lines it spans. */
  lemma BlockAtShape(lines: seq<string>, i: nat)
    requires i <= |lines|
    ensures DistinctKeys(BlockAt(lines, i).0)
    ensures |BlockAt(lines, i).0| <= BlockLen(lines, i) && i + BlockLen(lines, i) <= |lines|
  {
    var ls := lines[i..i + BlockLen(lines, i)];
    ParseLinesDistinct(ls);
    DuplicatesCounted(ls);
    KeyedCountBound(ls);
  }

  /** A rendered block followed by a line without ':' (or by nothing) reads back as written. */
  lemma RenderedBlockReads(pre: seq<string>, c: Characs, post: seq<string>)
    requires DistinctKeys(c)
    requires forall i | 0 <= i < |c| :: Writable(c[i].0, c[i].1)
    requires post == [] || ':' !in post[0]
    ensures BlockAt(pre + Render(c) + post, |pre|) == (c, [])
  {
    var lines := pre + Render(c) + post;
    forall m | |pre| <= m < |pre| + |c| ensures ':' in lines[m] {
      var (k, v) := c[m - |pre|];
      assert lines[m] == RenderLine(k, v);
      assert RenderLine(k, v)[2 + |k|] == ':';
    }
    if post != [] {
      assert lines[|pre| + |c|] == post[0];
    }
    BlockLenIs(lines, |pre|, |pre| + |c|);
    assert lines[|pre|..|pre| + |c|] == Render(c);
    RenderReads(c);
  }

  /** The block loop of `_get_characteristics`: stops at the first line without a ':'; a line
      with a key logs an error when the key was already read, then stores its value. */
  method ReadBlock(lines: seq<string>, i: nat, logger: Logger) returns (c: Characs)
    requires i <= |lines| && logger.Valid()
    modifies logger
    ensures logger.Valid()
    ensures c == BlockAt(lines, i).0
    ensures logger.entries == old(logger.entries) + BlockAt(lines, i).1
  {
    var j;
    c, j := ReadBlockLines(lines, i, logger);
    BlockRead(lines, i, j, old(logger.entries), c, logger.entries);
  }

  /** The loop itself: the lines read from i up to the first one without a ':'. */
  method ReadBlockLines(lines: seq<string>, i: nat, logger: Logger) returns (c: Characs, j: nat)
    requires i <= |lines| && logger.Valid()
    modifies logger
    ensures logger.Valid()
    ensures j == i + BlockLen(lines, i)
    ensures (c, logger.entries) == ParseFrom(([], old(logger.entries)), lines[i..j])
  {
    c := [];
    j := i;
    ghost var start: (Characs, seq<Entry>) := ([], old(logger.entries));
    while j < |lines|
      invariant i <= j <= |lines|
      invariant BlockLen(lines, i) == j - i + BlockLen(lines, j)
      invariant logger.Valid()
      invariant (c, logger.entries) == ParseFrom(start, lines[i..j])
    {
      if ':' !in lines[j] {
        break;
      }
      c := ReadLine(lines, i, j, start, c, logger);
      j := j + 1;
    }
  }

  /** Where the reading loop stops, what it built is the block read from line i. */
  lemma BlockRead(lines: seq<string>, i: nat, j: nat, log: seq<Entry>, c: Characs, entries: seq<Entry>)
    requires i <= |lines| && j == i + BlockLen(lines, i)
    requires (c, entries) == ParseFrom(([], log), lines[i..j])
    ensures c == BlockAt(lines, i).0 && entries == log + BlockAt(lines, i).1
  {
    BlockAtIs(lines, i, j);
    ParseFromLog(log, lines[i..j]);
  }

  /** One more line of the block read on top of the lines before it. */
  method ReadLine(lines: seq<string>, i: nat, j: nat, ghost start: (Characs, seq<Entry>), c: Characs,
                  logger: Logger) returns (r: Characs)
    requires i <= j < |lines| && logger.Valid()
    requires (c, logger.entries) == ParseFrom(start, lines[i..j])
    modifies logger
    ensures logger.Valid()
    ensures (r, logger.entries) == ParseFrom(start, lines[i..j + 1])
  {
    r := ReadEntry(c, lines[j], logger);
    ParseFromAt(start, lines, i, j);
  }

  /** One line of the block: its entry, when it has one, stored with the duplicate check. */
  method ReadEntry(c: Characs, line: string, logger: Logger) returns (r: Characs)
    requires logger.Valid()
    modifies logger
    ensures logger.Valid()
    ensures (r, logger.entries) == Step((c, old(logger.entries)), line)
  {
    var entry := KeyedEntry(line);
    if entry.Some? {
      r := Store(c, entry.value.0, entry.value.1, logger);
    } else {
      r := c;
    }
  }

  lemma BlockAtIs(lines: seq<string>, i: nat, j: nat)
    requires i <= j <= |lines| && j == i + BlockLen(lines, i)
    ensures BlockAt(lines, i) == ParseLines(lines[i..j])
  {
    var ls := lines[i..j];
    assert lines[i..i + BlockLen(lines, i)] == ls;
  }

  /** `characs[key] = val` after the duplicate check. */
  method Store(c: Characs, k: string, v: string, logger: Logger) returns (r: Characs)
    requires logger.Valid()
    modifies logger
    ensures logger.Valid()
    ensures r == Put(c, k, v)
    ensures logger.entries == old(logger.entries) + DuplicateLog(c, k)
  {
    if HasKey(c, k) {
      logger.Log(Error, k + DuplicateSuffix);
    }
    r := Put(c, k, v);
  }

  // ---------------------------------------------------------------------------------------------
  // Trailing whitespace

  /** The index of the last non-empty line, or -1. */
  function LastNonEmpty(lines: seq<string>): (i: int)
    ensures -1 <= i < |lines|
    ensures i >= 0 ==> lines[i] != []
    ensures forall j | i < j < |lines| :: lines[j] == []
  {
    if lines == [] then -1
    else if lines[|lines| - 1] != [] then |lines| - 1
    else
      var i := LastNonEmpty(lines[..|lines| - 1]);
      assert forall j | i < j < |lines| - 1 :: lines[..|lines| - 1][j] == lines[j];
      i
  }

  lemma {:induction false} LastNonEmptyIs(lines: seq<string>, i: int)
    requires -1 <= i < |lines|
    requires i >= 0 ==> lines[i] != []
    requires forall j | i < j < |lines| :: lines[j] == []
    ensures LastNonEmpty(lines) == i
  {
    if lines != [] && i < |lines| - 1 {
      var front := lines[..|lines| - 1];
      assert forall j | i < j < |front| :: front[j] == lines[j];
      assert i >= 0 ==> front[i] == lines[i];
      LastNonEmptyIs(front, i);
    }
  }

  /** The line the trailing-whitespace check passes over: the last non-empty one, when the note
      has tags; -1 otherwise. */
  function SkippedLine(lines: seq<string>, tags: Option<seq<string>>): int {
    if tags.Some? && tags.value != [] then LastNonEmpty(lines) else -1
  }

  predicate EndsInSpace(line: string) {
    line != [] && line[|line| - 1] == ' '
  }

  const TrailingPrefix := "Trailing whitespace found on line "

  function TrailingMessage(n: nat): string {
    TrailingPrefix + NatToString(n)
  }

  /** The warnings for lines lo and after, from the last line up, 1-based line numbers. */
  function TrailingLog(lines: seq<string>, skip: int, lo: nat): seq<Entry>
    requires lo <= |lines|
    decreases |lines| - lo
  {
    if lo == |lines| then []
    else
      TrailingLog(lines, skip, lo + 1)
      + if lo != skip && EndsInSpace(lines[lo]) then [Entry(Warning, TrailingMessage(lo + 1))] else []
  }

  lemma TrailingMessageInjective(m: nat, n: nat)
    requires TrailingMessage(m) == TrailingMessage(n)
    ensures m == n
  {
    var p := |TrailingPrefix|;
    assert NatToString(m) == TrailingMessage(m)[p..];
    assert NatToString(n) == TrailingMessage(n)[p..];
    ParseIntOfNat(m);
    ParseIntOfNat(n);
  }

  /** There is a warning naming line j + 1 exactly when line j ends in a space and is not the
      skipped line. */
  lemma {:induction false} TrailingWarnsExactly(lines: seq<string>, skip: int, lo: nat, j: nat)
    requires lo <= |lines|
    ensures Entry(Warning, TrailingMessage(j + 1)) in TrailingLog(lines, skip, lo)
            <==> lo <= j < |lines| && j != skip && EndsInSpace(lines[j])
    decreases |lines| - lo
  {
    if lo < |lines| {
      var e := Entry(Warning, TrailingMessage(j + 1));
      var here := if lo != skip && EndsInSpace(lines[lo]) then [Entry(Warning, TrailingMessage(lo + 1))] else [];
      assert TrailingLog(lines, skip, lo) == TrailingLog(lines, skip, lo + 1) + here;
      TrailingWarnsExactly(lines, skip, lo + 1, j);
      assert e in here <==> j == lo && lo != skip && EndsInSpace(lines[lo]) by {
        if TrailingMessage(j + 1) == TrailingMessage(lo + 1) {
          TrailingMessageInjective(j + 1, lo + 1);
        }
      }
    }
  }

  /** The trailing-whitespace messages are all warnings. */
  lemma {:induction false} TrailingOnlyWarns(lines: seq<string>, skip: int, lo: nat)
    requires lo <= |lines|
    ensures forall e | e in TrailingLog(lines, skip, lo) :: e.kind == Warning
    decreases |lines| - lo
  {
    if lo < |lines| {
      TrailingOnlyWarns(lines, skip, lo + 1);
    }
  }

  /** `_check_trailing_whitespaces`: walks the lines from the end, passing over the tag line. */
  method CheckTrailing(lines: seq<string>, tags: Option<seq<string>>, logger: Logger)
    requires logger.Valid()
    modifies logger
    ensures logger.Valid()
    ensures logger.entries == old(logger.entries) + TrailingLog(lines, SkippedLine(lines, tags), 0)
  {
    var tagged := tags.Some? && tags.value != [];
    ghost var skip := SkippedLine(lines, tags);
    var pastTagLine := false;
    var rev := 0;
    while rev < |lines|
      invariant 0 <= rev <= |lines|
      invariant pastTagLine <==> skip >= |lines| - rev
      invariant tagged && !pastTagLine ==> forall j | |lines| - rev <= j < |lines| :: lines[j] == []
      invariant logger.Valid()
      invariant logger.entries == old(logger.entries) + TrailingLog(lines, skip, |lines| - rev)
    {
      var idx := |lines| - 1 - rev;
      var line := lines[idx];
      if !pastTagLine && tagged && line != [] {
        LastNonEmptyIs(lines, idx);
        pastTagLine := true;
      } else if line != [] && line[|line| - 1] == ' ' {
        logger.Log(Warning, TrailingMessage(|lines| - rev));
      }
      rev := rev + 1;
    }
  }

  // ---------------------------------------------------------------------------------------------
  // The title line

  /** `_check_title_line`: at most one error, by priority. */
  function TitleLog(line: string, stem: string): (r: seq<Entry>)
    ensures |r| <= 1
    ensures r == [] <==> line == "# " + stem
    ensures forall i | 0 <= i < |r| :: r[i].kind == Error
  {
    if !StartsWith(line, "#") then [Entry(Error, "Title missing on first line")]
    else if StartsWith(line, "##") then [Entry(Error, "Title heading has wrong level")]
    else if !StartsWith(line, "# ") then [Entry(Error, "Title is malformed")]
    else if line != "# " + stem then [Entry(Error, "Title does not match file name")]
    else []
  }

  method CheckTitle(lines: seq<string>, stem: string, logger: Logger)
    requires lines != [] && logger.Valid()
    modifies logger
    ensures logger.Valid()
    ensures logger.entries == old(logger.entries) + TitleLog(lines[0], stem)
  {
    var line := lines[0];
    if !StartsWith(line, "#") {
      logger.Log(Error, "Title missing on first line");
    } else if StartsWith(line, "##") {
      logger.Log(Error, "Title heading has wrong level");
    } else if !StartsWith(line, "# ") {
      logger.Log(Error, "Title is malformed");
    } else if line != "# " + stem {
      logger.Log(Error, "Title does not match file name");
    }
  }

  // ---------------------------------------------------------------------------------------------
  // The characteristics checks

  const PersonTag := "person"
  const BlockWithoutTagMessage := "Characteristics block found but tag 'person' missing"
  const TagWithoutBlockMessage := "Tag 'person' found but characteristics block missing"
  const ShuffledMessage := "Characteristics block is shuffled"
  const MissingSuffix := " missing from characteristics"
  const NoValueSuffix := " has no value"

  /** The error for a canonical key the dictionary lacks. */
  function MissingEntry(c: Characs, k: string): seq<Entry> {
    if !HasKey(c, k) then [Entry(Error, k + MissingSuffix)] else []
  }

  /** One error per key of `refs` the dictionary lacks, in the order of `refs`. */
  function MissingLog(c: Characs, refs: seq<string>): seq<Entry> {
    if refs == [] then [] else MissingLog(c, refs[..|refs| - 1]) + MissingEntry(c, refs[|refs| - 1])
  }

  /** The warning for an entry without a value. */
  function NoValueEntry(e: (string, string)): seq<Entry> {
    if e.1 == [] then [Entry(Warning, e.0 + NoValueSuffix)] else []
  }

  /** One warning per entry with an empty value, in dictionary order. */
  function NoValueLog(c: Characs): seq<Entry> {
    if c == [] then [] else NoValueLog(c[..|c| - 1]) + NoValueEntry(c[|c| - 1])
  }

  /** The `zip` comparison: some of the first keys differ from the canonical ones. */
  predicate Shuffled(c: Characs) {
    exists i | 0 <= i < |c| && i < |CanonicalKeys| :: c[i].0 != CanonicalKeys[i]
  }

  /** The warnings on a block without the person tag, or the tag without a block. */
  function PresenceLog(tags: seq<string>, c: Characs): seq<Entry> {
    var person := PersonTag in tags;
    (if c != [] && !person then [Entry(Warning, BlockWithoutTagMessage)] else [])
    + (if person && c == [] then [Entry(Warning, TagWithoutBlockMessage)] else [])
  }

  function OrderLog(c: Characs): seq<Entry> {
    if Shuffled(c) then [Entry(Error, ShuffledMessage)] else []
  }

  /** `_check_characteristics`, once the tags are known to be a list. */
  function CharacteristicsLog(tags: seq<string>, c: Characs): seq<Entry> {
    var presence := PresenceLog(tags, c);
    if c == [] then presence
    else
      var missing := MissingLog(c, CanonicalKeys);
      if missing != [] then presence + missing
      else presence + (OrderLog(c) + NoValueLog(c))
  }

  lemma SuffixInjective(a: string, b: string, s: string)
    requires a + s == b + s
    ensures a == b
  {
    assert a == (a + s)[..|a|];
    assert b == (b + s)[..|b|];
  }

  /** The missing-key errors name exactly the keys of `refs` that the dictionary lacks. */
  lemma {:induction false} MissingLogNames(c: Characs, refs: seq<string>, k: string)
    ensures Entry(Error, k + MissingSuffix) in MissingLog(c, refs) <==> k in refs && !HasKey(c, k)
    ensures MissingLog(c, refs) == [] <==> forall j | 0 <= j < |refs| :: HasKey(c, refs[j])
  {
    if refs != [] {
      var front := refs[..|refs| - 1];
      var last := refs[|refs| - 1];
      MissingLogNames(c, front, k);
      assert refs == front + [last];
      if k + MissingSuffix == last + MissingSuffix {
        SuffixInjective(k, last, MissingSuffix);
      }
      assert forall j | 0 <= j < |front| :: front[j] == refs[j];
    }
  }

  /** The empty-value warnings name exactly the keys whose value is empty. */
  lemma {:induction false} NoValueLogNames(c: Characs, k: string)
    ensures Entry(Warning, k + NoValueSuffix) in NoValueLog(c) <==> (k, "") in c
  {
    if c != [] {
      var front := c[..|c| - 1];
      NoValueLogNames(front, k);
      assert c == front + [c[|c| - 1]];
      if k + NoValueSuffix == c[|c| - 1].0 + NoValueSuffix {
        SuffixInjective(k, c[|c| - 1].0, NoValueSuffix);
      }
    }
  }

  /**
   * When no canonical key is missing the block has at least four entries, so the `zip` check
   * compares all four canonical keys: the block is reported shuffled exactly when its first four
   * keys are not Race, Gender, Birthday, Age in that order.
   */
  lemma ShuffledIffOutOfOrder(c: Characs)
    requires DistinctKeys(c) && MissingLog(c, CanonicalKeys) == []
    ensures |c| >= 4
    ensures !Shuffled(c) <==> forall i | 0 <= i < 4 :: c[i].0 == CanonicalKeys[i]
  {
    MissingLogNames(c, CanonicalKeys, "");
    FourKeys(c);
  }

  /** Four distinct keys need four entries. */
  lemma FourKeys(c: Characs)
    requires DistinctKeys(c)
    requires forall j | 0 <= j < |CanonicalKeys| :: HasKey(c, CanonicalKeys[j])
    ensures |c| >= 4
  {
    assert HasKey(c, CanonicalKeys[0]) && HasKey(c, CanonicalKeys[1]);
    assert HasKey(c, CanonicalKeys[2]) && HasKey(c, CanonicalKeys[3]);
    var i0 :| 0 <= i0 < |c| && c[i0].0 == "Race";
    var i1 :| 0 <= i1 < |c| && c[i1].0 == "Gender";
    var i2 :| 0 <= i2 < |c| && c[i2].0 == "Birthday";
    var i3 :| 0 <= i3 < |c| && c[i3].0 == "Age";
    assert i0 != i1 && i0 != i2 && i0 != i3 && i1 != i2 && i1 != i3 && i2 != i3;
  }

  /** `_check_characteristics` after the `"person" in tags` test: the presence warnings, then the
      missing-key errors, or else the order error and the empty-value warnings. */
  method CheckCharacteristics(tags: seq<string>, c: Characs, logger: Logger)
    requires logger.Valid()
    modifies logger
    ensures logger.Valid()
    ensures logger.entries == old(logger.entries) + CharacteristicsLog(tags, c)
  {
    LogPresence(tags, c, logger);
    if c == [] {
      return;
    }
    ghost var presence := logger.entries;
    var foundError := LogMissing(c, logger);
    if foundError {
      Concat3(old(logger.entries), PresenceLog(tags, c), MissingLog(c, CanonicalKeys));
    } else {
      if exists m | 0 <= m < |c| && m < |CanonicalKeys| :: c[m].0 != CanonicalKeys[m] {
        logger.Log(Error, ShuffledMessage);
      }
      assert logger.entries == presence + OrderLog(c);
      LogNoValues(c, logger);
      Concat4(old(logger.entries), PresenceLog(tags, c), OrderLog(c), NoValueLog(c));
    }
  }

  /** Regrouping three logs; stated apart so that the methods logging them keep a small context. */
  lemma Concat3(a: seq<Entry>, b: seq<Entry>, c: seq<Entry>)
    ensures a + b + c == a + (b + c)
  {
  }

  /** Regrouping four logs, likewise. */
  lemma Concat4(a: seq<Entry>, b: seq<Entry>, c: seq<Entry>, d: seq<Entry>)
    ensures a + b + c + d == a + (b + (c + d))
  {
  }

  /** The two warnings on whether the person tag and the block go together. */
  method LogPresence(tags: seq<string>, c: Characs, logger: Logger)
    requires logger.Valid()
    modifies logger
    ensures logger.Valid()
    ensures logger.entries == old(logger.entries) + PresenceLog(tags, c)
  {
    var person := PersonTag in tags;
    if c != [] && !person {
      logger.Log(Warning, BlockWithoutTagMessage);
    }
    if person && c == [] {
      logger.Log(Warning, TagWithoutBlockMessage);
    }
  }

  /** The loop over the canonical keys: one error per key missing; whether any was. */
  method LogMissing(c: Characs, logger: Logger) returns (foundError: bool)
    requires logger.Valid()
    modifies logger
    ensures logger.Valid()
    ensures logger.entries == old(logger.entries) + MissingLog(c, CanonicalKeys)
    ensures foundError <==> MissingLog(c, CanonicalKeys) != []
  {
    foundError := false;
    var i := 0;
    while i < |CanonicalKeys|
      invariant 0 <= i <= |CanonicalKeys|
      invariant logger.Valid()
      invariant logger.entries == old(logger.entries) + MissingLog(c, CanonicalKeys[..i])
      invariant foundError <==> MissingLog(c, CanonicalKeys[..i]) != []
    {
      assert CanonicalKeys[..i + 1][..i] == CanonicalKeys[..i];
      var missing := LogIfMissing(c, CanonicalKeys[i], logger);
      foundError := foundError || missing;
      Concat3(old(logger.entries), MissingLog(c, CanonicalKeys[..i]), MissingEntry(c, CanonicalKeys[i]));
      i := i + 1;
    }
    assert CanonicalKeys[..i] == CanonicalKeys;
  }

  /** `if not ref_key in self._characs`: logs the error for one key. */
  method LogIfMissing(c: Characs, k: string, logger: Logger) returns (missing: bool)
    requires logger.Valid()
    modifies logger
    ensures logger.Valid()
    ensures logger.entries == old(logger.entries) + MissingEntry(c, k)
    ensures missing <==> MissingEntry(c, k) != []
  {
    missing := !HasKey(c, k);
    if missing {
      logger.Log(Error, k + MissingSuffix);
    }
  }

  /** The loop over the entries: one warning per empty value. */
  method LogNoValues(c: Characs, logger: Logger)
    requires logger.Valid()
    modifies logger
    ensures logger.Valid()
    ensures logger.entries == old(logger.entries) + NoValueLog(c)
  {
    var j := 0;
    while j < |c|
      invariant 0 <= j <= |c|
      invariant logger.Valid()
      invariant logger.entries == old(logger.entries) + NoValueLog(c[..j])
    {
      assert c[..j + 1][..j] == c[..j];
      if c[j].1 == [] {
        logger.Log(Warning, c[j].0 + NoValueSuffix);
      }
      Concat3(old(logger.entries), NoValueLog(c[..j]), NoValueEntry(c[j]));
      j := j + 1;
    }
    assert c[..j] == c;
  }

  // ---------------------------------------------------------------------------------------------
  // The whole check

  const EmptyFileMessage := "File is empty"

  /** Everything `check_integrity` logs. */
  function IntegrityLog(lines: seq<string>, tags: Option<seq<string>>, c: Characs, stem: string): (r: seq<Entry>)
    ensures lines == [] ==> r == [Entry(Error, EmptyFileMessage)]
  {
    if lines == [] then [Entry(Error, EmptyFileMessage)]
    else
      TrailingLog(lines, SkippedLine(lines, tags), 0)
      + TitleLog(lines[0], stem)
      + (if tags.Some? then CharacteristicsLog(tags.value, c) else [])
  }

  /** `check_integrity`: an empty note logs only "File is empty"; otherwise the trailing
      whitespace, title and characteristics checks run in that order. The last raises TypeError
      when the note had no line with words, after the first two have logged. */
  method CheckIntegrity(lines: seq<string>, tags: Option<seq<string>>, c: Characs, stem: string, logger: Logger)
    returns (r: Result<(), Failure>)
    requires logger.Valid()
    modifies logger
    ensures logger.Valid()
    ensures r.Err? <==> lines != [] && tags.None?
    ensures r.Err? ==> r.error == NoTagLine
    ensures logger.entries == old(logger.entries) + IntegrityLog(lines, tags, c, stem)
  {
    if lines == [] {
      logger.Log(Error, EmptyFileMessage);
      return Ok(());
    }
    ghost var log0 := logger.entries;
    ghost var trailing := TrailingLog(lines, SkippedLine(lines, tags), 0);
    ghost var title := TitleLog(lines[0], stem);
    CheckTrailing(lines, tags, logger);
    CheckTitle(lines, stem, logger);
    assert logger.entries == log0 + trailing + title;
    if tags.None? {
      assert IntegrityLog(lines, tags, c, stem) == trailing + title + [];
      assert trailing + title + [] == trailing + title;
      Concat3(log0, trailing, title);
      return Err(NoTagLine);
    }
    ghost var characs := CharacteristicsLog(tags.value, c);
    CheckCharacteristics(tags.value, c, logger);
    assert IntegrityLog(lines, tags, c, stem) == trailing + title + characs;
    Concat4(log0, trailing, title, characs);
    Concat3(trailing, title, characs);
    return Ok(());
  }
}
