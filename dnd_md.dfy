/**
 * `DNDMarkdown`, the current note class: it reads the tags and the characteristics block of a
 * note when it is opened, rewrites the block in place on request, and checks the note.
 */
module DndMarkdown {
  import opened Wrappers
  import opened Text
  import opened Logging
  import opened Characs
  import opened Notes

  // ---------------------------------------------------------------------------------------------
  // Reading the characteristics block

  /** The first non-blank line from index i on, or the last line when every one is blank. */
  function FirstNonBlankFrom(lines: seq<string>, i: nat): (s: nat)
    requires i < |lines|
    ensures i <= s < |lines|
    ensures forall m | i <= m < s :: IsBlank(lines[m])
    ensures s == |lines| - 1 || !IsBlank(lines[s])
    decreases |lines| - i
  {
    if i == |lines| - 1 || !IsBlank(lines[i]) then i else FirstNonBlankFrom(lines, i + 1)
  }

  /** The line the block starts on, for a heading at h that is not the last line. */
  function BlockStart(lines: seq<string>, h: nat): nat
    requires h + 1 < |lines|
  {
    FirstNonBlankFrom(lines, h + 1)
  }

  /**
   * `_get_characteristics`: the dictionary and the index of its first line, or the IndexError
   * raised when the heading is the last line; with the messages logged.
   */
  function ReadResult(lines: seq<string>): (Result<(Characs, Option<nat>), Failure>, seq<Entry>) {
    match FirstHeading(lines)
    case None => (Ok(([], None)), [])
    case Some(h) => ReadFrom(lines, h)
  }

  /** What is returned and logged once the heading is found at h. */
  function ReadFrom(lines: seq<string>, h: nat): (Result<(Characs, Option<nat>), Failure>, seq<Entry>)
    requires h < |lines|
  {
    if h + 1 == |lines| then (Err(HeadingOnLastLine), HeadingLog(lines[h]))
    else
      var s := BlockStart(lines, h);
      (Ok((BlockAt(lines, s).0, Some(s))), HeadingLog(lines[h]) + LineBreakLog(lines, h) + BlockAt(lines, s).1)
  }

  /** A note without a characteristics heading has an empty dictionary, no start and no messages. */
  lemma NoHeadingNoBlock(lines: seq<string>)
    requires forall j | 0 <= j < |lines| :: !IsCharacHeading(lines[j])
    ensures ReadResult(lines) == (Ok(([], None)), [])
  {
  }

  /**
   * The block starts on the first non-blank line after the heading (the last line when all are
   * blank), and the dictionary read from there is one.
   */
  lemma BlockStartsAfterBlankLines(lines: seq<string>)
    requires FirstHeading(lines).Some? && FirstHeading(lines).value + 1 < |lines|
    ensures var h := FirstHeading(lines).value;
      ReadResult(lines).0.Ok? && ReadResult(lines).0.value.1.Some? &&
      var s := ReadResult(lines).0.value.1.value;
      h < s < |lines| &&
      (forall m | h < m < s :: IsBlank(lines[m])) &&
      (s == |lines| - 1 || !IsBlank(lines[s]))
    ensures DistinctKeys(ReadResult(lines).0.value.0)
    ensures ReadResult(lines).0.value.1.value + |ReadResult(lines).0.value.0| <= |lines|
  {
    var h := FirstHeading(lines).value;
    BlockAtShape(lines, BlockStart(lines, h));
  }

  /** A heading on the last line raises, after its own errors are logged. */
  lemma HeadingOnLastLineFails(lines: seq<string>)
    requires FirstHeading(lines).Some?
    ensures ReadResult(lines).0.Err? <==> FirstHeading(lines).value == |lines| - 1
    ensures ReadResult(lines).0.Err? ==>
      ReadResult(lines) == (Err(HeadingOnLastLine), HeadingLog(lines[|lines| - 1]))
  {
  }

  /**
   * The block a clean note holds reads back as written, without messages: a well-formed heading,
   * one blank line, one `* key: value` line per entry, then a line without ':' or the end.
   */
  lemma CleanNoteReads(pre: seq<string>, c: Characs, post: seq<string>)
    requires forall j | 0 <= j < |pre| :: !IsCharacHeading(pre[j])
    requires c != [] && DistinctKeys(c)
    requires forall i | 0 <= i < |c| :: Writable(c[i].0, c[i].1)
    requires post == [] || ':' !in post[0]
    ensures var lines := pre + ["## Characteristics", ""] + Render(c) + post;
      ReadResult(lines) == (Ok((c, Some(|pre| + 2))), [])
  {
    var head := pre + ["## Characteristics", ""];
    var lines := head + Render(c) + post;
    var h := |pre|;
    assert ReadResult(lines) == (Ok((BlockAt(lines, h + 2).0, Some(h + 2))), BlockAt(lines, h + 2).1) by {
      assert forall j | 0 <= j < h :: lines[j] == pre[j];
      assert lines[h] == "## Characteristics" && lines[h + 1] == "";
      var first := Render(c)[0];
      assert !IsBlank(first) by { RenderLineNotBlank(c[0].0, c[0].1); }
      assert lines[h + 2] == first;
      CleanHeadingReads(lines, h);
    }
    assert BlockAt(lines, h + 2) == (c, []) by {
      RenderedBlockReads(head, c, post);
    }
    assert lines == pre + ["## Characteristics", ""] + Render(c) + post;
  }

  /** After a clean heading and one blank line, the block is read from the next line. */
  lemma CleanHeadingReads(lines: seq<string>, h: nat)
    requires h + 2 < |lines| && !IsBlank(lines[h + 2])
    requires lines[h] == "## Characteristics" && lines[h + 1] == ""
    requires forall j | 0 <= j < h :: !IsCharacHeading(lines[j])
    ensures ReadResult(lines) == (Ok((BlockAt(lines, h + 2).0, Some(h + 2))), BlockAt(lines, h + 2).1)
  {
    CleanHeadingFound(lines, h);
    assert BlockStart(lines, h) == h + 2;
    ReadResultOfBlock(lines, h, h + 2);
    HeadingCleanOfTarget(lines[h]);
    assert LineBreakLog(lines, h) == [];
    var log := BlockAt(lines, h + 2).1;
    assert [] + [] + log == log;
  }

  lemma RenderLineNotBlank(k: string, v: string)
    ensures !IsBlank(RenderLine(k, v))
  {
    assert RenderLine(k, v)[0] == '*';
  }

  /**
   * `_get_characteristics`: finds the first characteristics heading, checks the line after it,
   * skips the blank lines that follow and reads the block.
   */
  method ReadCharacteristics(lines: seq<string>, logger: Logger)
    returns (r: Result<(Characs, Option<nat>), Failure>)
    requires logger.Valid()
    modifies logger
    ensures logger.Valid()
    ensures r == ReadResult(lines).0
    ensures logger.entries == old(logger.entries) + ReadResult(lines).1
  {
    var found := FindHeading(lines, logger);
    if found.None? {
      assert logger.entries == old(logger.entries) + [];
      return Ok(([], None));
    }
    var h := found.value;
    if h + 1 == |lines| {
      assert ReadResult(lines).1 == HeadingLog(lines[h]);
      return Err(HeadingOnLastLine);
    }
    ghost var headed := logger.entries;
    if !IsBlank(lines[h + 1]) {
      logger.Log(Error, NoLineBreakMessage);
    }
    assert logger.entries == headed + LineBreakLog(lines, h);
    var s := h + 1;
    while s < |lines| - 1 && IsBlank(lines[s])
      invariant h < s < |lines|
      invariant FirstNonBlankFrom(lines, s) == FirstNonBlankFrom(lines, h + 1)
      decreases |lines| - s
    {
      s := s + 1;
    }
    var c := ReadBlock(lines, s, logger);
    ReadResultOfBlock(lines, h, s);
    ghost var (a, b, d) := (HeadingLog(lines[h]), LineBreakLog(lines, h), BlockAt(lines, s).1);
    assert logger.entries == old(logger.entries) + a + b + d;
    Concat4(old(logger.entries), a, b, d);
    Concat3(a, b, d);
    return Ok((c, Some(s)));
  }

  lemma ReadResultOfBlock(lines: seq<string>, h: nat, s: nat)
    requires FirstHeading(lines) == Some(h) && h + 1 < |lines| && s == BlockStart(lines, h)
    ensures ReadResult(lines).0 == Ok((BlockAt(lines, s).0, Some(s)))
    ensures ReadResult(lines).1 == HeadingLog(lines[h]) + LineBreakLog(lines, h) + BlockAt(lines, s).1
  {
  }

  // ---------------------------------------------------------------------------------------------
  // Rewriting the block

  /** The setter's reordering loops: the canonical keys the new dictionary holds, in canonical
      order, then its other keys in their order. */
  method Reorder(input: Characs) returns (r: Characs)
    requires DistinctKeys(input)
    ensures r == Reordered(input)
  {
    r := CanonicalEntries(input);
    r := AppendOtherEntries(input, r);
  }

  /** The first loop: each canonical key the new dictionary holds, with its value. */
  method CanonicalEntries(input: Characs) returns (r: Characs)
    ensures r == CanonicalPart(input, CanonicalKeys)
  {
    r := [];
    var i := 0;
    while i < |CanonicalKeys|
      invariant 0 <= i <= |CanonicalKeys|
      invariant r == CanonicalPart(input, CanonicalKeys[..i])
    {
      var key := CanonicalKeys[i];
      var v := Get(input, key);
      CanonicalPartStep(input, i);
      if v.Some? {
        r := Put(r, key, v.value);
      }
      i := i + 1;
    }
    assert CanonicalKeys[..i] == CanonicalKeys;
  }

  /** The second loop: every entry whose key is not there yet, in the order given. */
  method AppendOtherEntries(input: Characs, canonical: Characs) returns (r: Characs)
    requires DistinctKeys(input) && canonical == CanonicalPart(input, CanonicalKeys)
    ensures r == Reordered(input)
  {
    r := canonical;
    var j := 0;
    while j < |input|
      invariant 0 <= j <= |input|
      invariant r == canonical + OtherPart(input[..j])
    {
      var (key, val) := input[j];
      ghost var before := r;
      if !HasKey(r, key) {
        r := Put(r, key, val);
      }
      OtherEntryStep(input, j, before, r);
      j := j + 1;
    }
    assert input[..j] == input;
  }

  lemma OtherEntryStep(input: Characs, j: nat, before: Characs, after: Characs)
    requires DistinctKeys(input) && j < |input|
    requires before == CanonicalPart(input, CanonicalKeys) + OtherPart(input[..j])
    requires after == if HasKey(before, input[j].0) then before else Put(before, input[j].0, input[j].1)
    ensures after == CanonicalPart(input, CanonicalKeys) + OtherPart(input[..j + 1])
  {
    var a := CanonicalPart(input, CanonicalKeys);
    var o := OtherPart(input[..j]);
    OtherPartStep(input, j);
    if !HasKey(before, input[j].0) {
      PutShape(before, input[j].0, input[j].1);
      assert a + o + [input[j]] == a + (o + [input[j]]);
    }
  }

  lemma CanonicalPartStep(c: Characs, i: nat)
    requires i < |CanonicalKeys|
    ensures CanonicalPart(c, CanonicalKeys[..i + 1]) ==
      match Get(c, CanonicalKeys[i])
      case Some(v) => Put(CanonicalPart(c, CanonicalKeys[..i]), CanonicalKeys[i], v)
      case None => CanonicalPart(c, CanonicalKeys[..i])
  {
    var refs := CanonicalKeys[..i + 1];
    var k := CanonicalKeys[i];
    var front := CanonicalPart(c, CanonicalKeys[..i]);
    assert CanonicalPart(c, refs) ==
      match Get(c, k)
      case Some(v) => front + [(k, v)]
      case None => front
    by {
      assert refs[..i] == CanonicalKeys[..i];
    }
    assert !HasKey(front, k) by {
      CanonicalPartShape(c, CanonicalKeys[..i]);
      assert k !in CanonicalKeys[..i];
    }
    if Get(c, k).Some? {
      PutShape(front, k, Get(c, k).value);
    }
  }

  lemma OtherPartStep(c: Characs, j: nat)
    requires DistinctKeys(c) && j < |c|
    ensures HasKey(CanonicalPart(c, CanonicalKeys) + OtherPart(c[..j]), c[j].0) <==> c[j].0 in CanonicalKeys
    ensures OtherPart(c[..j + 1]) == if c[j].0 in CanonicalKeys then OtherPart(c[..j]) else OtherPart(c[..j]) + [c[j]]
  {
    assert c[..j + 1][..j] == c[..j];
    var k := c[j].0;
    HasKeyConcat(CanonicalPart(c, CanonicalKeys), OtherPart(c[..j]), k);
    if k in CanonicalKeys {
      assert HasKey(c, k);
      CanonicalPartShape(c, CanonicalKeys);
    } else {
      CanonicalPartKeys(c, k);
      OtherPartPrefixKeys(c, j);
    }
  }

  lemma HasKeyConcat(a: Characs, b: Characs, k: string)
    ensures HasKey(a + b, k) <==> HasKey(a, k) || HasKey(b, k)
  {
    if HasKey(a, k) {
      var i :| 0 <= i < |a| && a[i].0 == k;
      assert (a + b)[i].0 == k;
    }
    if HasKey(b, k) {
      var i :| 0 <= i < |b| && b[i].0 == k;
      assert (a + b)[|a| + i].0 == k;
    }
    if HasKey(a + b, k) {
      var i :| 0 <= i < |a + b| && (a + b)[i].0 == k;
      if i < |a| { assert a[i].0 == k; } else { assert b[i - |a|].0 == k; }
    }
  }

  lemma CanonicalPartKeys(c: Characs, k: string)
    requires k !in CanonicalKeys
    ensures !HasKey(CanonicalPart(c, CanonicalKeys), k)
  {
    CanonicalPartShape(c, CanonicalKeys);
  }

  lemma OtherPartPrefixKeys(c: Characs, j: nat)
    requires DistinctKeys(c) && j < |c|
    ensures !HasKey(OtherPart(c[..j]), c[j].0)
  {
    var b := OtherPart(c[..j]);
    OtherPartShape(c[..j]);
    forall i | 0 <= i < |b| ensures b[i].0 != c[j].0 {
      var m :| 0 <= m < j && c[..j][m] == b[i];
      assert c[m] == b[i];
    }
  }

  /** The lines after the setter: the block's first n lines replaced by the rewritten block. */
  function Rewritten(lines: seq<string>, s: nat, n: nat, input: Characs): seq<string>
    requires s + n <= |lines|
  {
    Spliced(lines, s, n, Render(Reordered(input)))
  }

  /** The lines with the n from index s on replaced by `block`. */
  function Spliced(lines: seq<string>, s: nat, n: nat, block: seq<string>): seq<string>
    requires s + n <= |lines|
  {
    lines[..s] + block + lines[s + n..]
  }

  /** The rewritten block holds entries of the dictionary given, and one at least when it is
      not empty. */
  lemma ReorderedFromInput(input: Characs)
    requires DistinctKeys(input)
    ensures forall i | 0 <= i < |Reordered(input)| :: Reordered(input)[i] in input
    ensures input != [] ==> Reordered(input) != []
  {
    var a := CanonicalPart(input, CanonicalKeys);
    var b := OtherPart(input);
    CanonicalPartShape(input, CanonicalKeys);
    OtherPartShape(input);
    forall i | 0 <= i < |a + b| ensures (a + b)[i] in input {
      if i < |a| {
        var j :| 0 <= j < |input| && input[j] == (a[i].0, Get(input, a[i].0).value);
        assert (a + b)[i] == input[j];
      } else {
        assert (a + b)[i] == b[i - |a|];
      }
    }
    if input != [] {
      ReorderedLookup(input, input[0].0);
      assert Get(input, input[0].0).Some?;
    }
  }

  /**
   * The setter keeps the note readable: on a note whose block spans exactly one line per entry,
   * reading the rewritten lines finds the same heading and start, the rewritten dictionary and
   * no duplicate-key errors.
   */
  lemma RewrittenReads(lines: seq<string>, input: Characs)
    requires ReadResult(lines).0.Ok? && ReadResult(lines).0.value.1.Some?
    requires var (c, s) := ReadResult(lines).0.value;
      c != [] && BlockLen(lines, s.value) == |c|
    requires input != [] && DistinctKeys(input)
    requires forall i | 0 <= i < |input| :: Writable(input[i].0, input[i].1)
    ensures var (c, s) := ReadResult(lines).0.value;
      var h := FirstHeading(lines).value;
      var after := Rewritten(lines, s.value, |c|, input);
      ReadResult(after) == (Ok((Reordered(input), s)), HeadingLog(lines[h]) + LineBreakLog(lines, h))
  {
    WholeBlockRewriteReads(lines, input);
  }

  /** The setter as evidently intended: it replaces every line of the block, as many as
      `_get_characteristics` read, rather than one per entry of the dictionary. */
  function RewrittenWholeBlock(lines: seq<string>, s: nat, input: Characs): seq<string>
    requires s <= |lines|
  {
    Rewritten(lines, s, BlockLen(lines, s), input)
  }

  /** Replacing the whole block keeps every note with a block readable: the same heading and
      start, the rewritten dictionary and no duplicate-key errors. */
  lemma WholeBlockRewriteReads(lines: seq<string>, input: Characs)
    requires ReadResult(lines).0.Ok? && ReadResult(lines).0.value.1.Some?
    requires ReadResult(lines).0.value.0 != []
    requires input != [] && DistinctKeys(input)
    requires forall i | 0 <= i < |input| :: Writable(input[i].0, input[i].1)
    ensures var s := ReadResult(lines).0.value.1;
      var h := FirstHeading(lines).value;
      var after := RewrittenWholeBlock(lines, s.value, input);
      ReadResult(after) == (Ok((Reordered(input), s)), HeadingLog(lines[h]) + LineBreakLog(lines, h))
  {
    var (c, start) := ReadResult(lines).0.value;
    var s := start.value;
    var h := FirstHeading(lines).value;
    var n := BlockLen(lines, s);
    var after := Rewritten(lines, s, n, input);
    assert h < s && s + n <= |lines| && n > 0 by {
      BlockStartsAfterBlankLines(lines);
      BlockAtShape(lines, s);
    }
    assert s == BlockStart(lines, h);
    RewrittenBlockReads(lines, s, n, input);
    assert Render(Reordered(input)) != [] && !IsBlank(Render(Reordered(input))[0]) by {
      var r := Reordered(input);
      ReorderedFromInput(input);
      RenderLineNotBlank(r[0].0, r[0].1);
    }
    assert ':' in lines[s];
    SplicedStart(lines, h, s, n, Render(Reordered(input)));
    ghost var log := HeadingLog(lines[h]) + LineBreakLog(lines, h);
    assert ReadResult(after) == (Ok((Reordered(input), Some(s))), log) by {
      ReadResultOfBlock(after, h, s);
      assert log + [] == log;
    }
  }

  /**
   * The setter as written, on a block with a repeated key: the block reads as the later value
   * with one error; the setter pops one line, so the later line stays under the rewritten one
   * and reading the note again gives the stale value instead of the one set.
   */
  lemma StaleDuplicateSurvives(pre: seq<string>, k: string, first: string, second: string, v: string,
                               post: seq<string>)
    requires Writable(k, first) && Writable(k, second) && Writable(k, v) && v != second
    requires post == [] || ':' !in post[0]
    ensures var lines := pre + [RenderLine(k, first), RenderLine(k, second)] + post;
      BlockAt(lines, |pre|) == ([(k, second)], [Entry(Error, k + DuplicateSuffix)]) &&
      Reordered([(k, v)]) == [(k, v)] &&
      BlockAt(Rewritten(lines, |pre|, 1, [(k, v)]), |pre|).0 == [(k, second)]
  {
    var lines := pre + [RenderLine(k, first), RenderLine(k, second)] + post;
    assert BlockAt(lines, |pre|) == ([(k, second)], [Entry(Error, k + DuplicateSuffix)]) by {
      TwoLineBlock(pre, k, first, second, post);
    }
    assert Reordered([(k, v)]) == [(k, v)] by {
      ReorderedSingle(k, v);
    }
    assert BlockAt(Rewritten(lines, |pre|, 1, [(k, v)]), |pre|).0 == [(k, second)] by {
      StaleRewrite(pre, k, first, second, v, post);
      TwoLineBlock(pre, k, v, second, post);
    }
  }

  /** Popping one line of a two-line block and inserting the single rewritten entry leaves the
      block's second line in place. */
  lemma StaleRewrite(pre: seq<string>, k: string, first: string, second: string, v: string,
                     post: seq<string>)
    ensures var lines := pre + [RenderLine(k, first), RenderLine(k, second)] + post;
      Rewritten(lines, |pre|, 1, [(k, v)]) == pre + [RenderLine(k, v), RenderLine(k, second)] + post
  {
    var x := RenderLine(k, v);
    ReorderedSingle(k, v);
    assert Render(Reordered([(k, v)])) == [x];
    SplicedOneLine(pre, RenderLine(k, first), RenderLine(k, second), post, x);
  }

  lemma SplicedOneLine(pre: seq<string>, a: string, b: string, post: seq<string>, x: string)
    ensures Spliced(pre + [a, b] + post, |pre|, 1, [x]) == pre + [x, b] + post
  {
    var lines := pre + [a, b] + post;
    assert lines[..|pre|] == pre;
    assert lines[|pre| + 1..] == [b] + post;
  }

  /** Two block lines with the same key read as the second value, with one duplicate error. */
  lemma TwoLineBlock(pre: seq<string>, k: string, first: string, second: string, post: seq<string>)
    requires Writable(k, first) && Writable(k, second)
    requires post == [] || ':' !in post[0]
    ensures var lines := pre + [RenderLine(k, first), RenderLine(k, second)] + post;
      BlockAt(lines, |pre|) == ([(k, second)], [Entry(Error, k + DuplicateSuffix)])
  {
    var a := RenderLine(k, first);
    var b := RenderLine(k, second);
    assert a[2 + |k|] == ':' && b[2 + |k|] == ':';
    BlockOfTwo(pre, a, b, post);
    RenderLineReads(k, first);
    RenderLineReads(k, second);
    ParseTwo(a, b, k, first, second);
  }

  lemma BlockOfTwo(pre: seq<string>, a: string, b: string, post: seq<string>)
    requires ':' in a && ':' in b && (post == [] || ':' !in post[0])
    ensures BlockAt(pre + [a, b] + post, |pre|) == ParseLines([a, b])
  {
    var lines := pre + [a, b] + post;
    var s := |pre|;
    assert lines[s] == a && lines[s + 1] == b;
    if post != [] {
      assert lines[s + 2] == post[0];
    }
    BlockLenIs(lines, s, s + 2);
    assert lines[s..s + 2] == [a, b];
  }

  lemma ParseTwo(a: string, b: string, k: string, x: string, y: string)
    requires KeyedEntry(a) == Some((k, x)) && KeyedEntry(b) == Some((k, y))
    ensures ParseLines([a, b]) == ([(k, y)], [Entry(Error, k + DuplicateSuffix)])
  {
    var one: (Characs, seq<Entry>) := ([(k, x)], []);
    var two: (Characs, seq<Entry>) := ([(k, y)], [Entry(Error, k + DuplicateSuffix)]);
    assert Step(([], []), a) == one by {
      StepKeyed(([], []), a, k, x);
      assert Put([], k, x) == [(k, x)];
      assert DuplicateLog([], k) == [];
      assert one.1 + [] == one.1;
    }
    assert Step(one, b) == two by {
      StepKeyed(one, b, k, y);
      assert one.0[0].0 == k;
      assert Put(one.0, k, y) == [(k, y)] + one.0[1..];
      assert one.0[1..] == [];
      assert Put(one.0, k, y) == two.0;
      assert HasKey(one.0, k);
      assert DuplicateLog(one.0, k) == two.1;
      assert one.1 + two.1 == two.1;
    }
    ParseSteps(a, b, one, two);
  }

  lemma ParseSteps(a: string, b: string, one: (Characs, seq<Entry>), two: (Characs, seq<Entry>))
    requires Step(([], []), a) == one && Step(one, b) == two
    ensures ParseLines([a, b]) == two
  {
    assert [a, b][..1] == [a];
    assert [a][..0] == [];
    assert ParseLines([a]) == Step(ParseLines([]), a);
    assert ParseLines([a, b]) == Step(ParseLines([a]), b);
  }

  lemma StepKeyed(state: (Characs, seq<Entry>), line: string, k: string, v: string)
    requires KeyedEntry(line) == Some((k, v))
    ensures Step(state, line) == (Put(state.0, k, v), state.1 + DuplicateLog(state.0, k))
  {
  }

  /** A dictionary of one entry is already in canonical order. */
  lemma ReorderedSingle(k: string, v: string)
    ensures Reordered([(k, v)]) == [(k, v)]
  {
    var c := [(k, v)];
    assert forall j | j != k :: Get(c, j) == None;
    assert Get(c, k) == Some(v);
    var ks := CanonicalKeys;
    var r1, r2, r3 := ["Race"], ["Race", "Gender"], ["Race", "Gender", "Birthday"];
    assert r1[..0] == [] && r2[..1] == r1 && r3[..2] == r2 && ks[..3] == r3;
    assert CanonicalPart(c, r1) == if k == "Race" then [(k, v)] else [];
    assert CanonicalPart(c, r2) == if k in r2 then [(k, v)] else [];
    assert CanonicalPart(c, r3) == if k in r3 then [(k, v)] else [];
    assert CanonicalPart(c, ks) == if k in ks then [(k, v)] else [];
    assert c[..0] == [];
    assert OtherPart(c) == if k in ks then [] else [(k, v)];
  }

  /** The rewritten block reads back as the rewritten dictionary when the old block spanned
      exactly the lines the setter pops. */
  lemma RewrittenBlockReads(lines: seq<string>, s: nat, n: nat, input: Characs)
    requires s + n <= |lines| && BlockLen(lines, s) == n
    requires DistinctKeys(input)
    requires forall i | 0 <= i < |input| :: Writable(input[i].0, input[i].1)
    ensures BlockAt(Rewritten(lines, s, n, input), s) == (Reordered(input), [])
  {
    var r := Reordered(input);
    ReorderedFromInput(input);
    ReorderedDistinct(input);
    var post := lines[s + n..];
    assert post == [] || ':' !in post[0] by {
      if post != [] {
        BlockLenShape(lines, s);
        assert post[0] == lines[s + n];
      }
    }
    RenderedBlockReads(lines[..s], r, post);
  }

  /** Replacing the block's lines by non-blank ones leaves the heading, the line after it and
      the block's start as they were. */
  lemma SplicedStart(lines: seq<string>, h: nat, s: nat, n: nat, block: seq<string>)
    requires FirstHeading(lines) == Some(h) && h < s < |lines| && s + n <= |lines|
    requires s == BlockStart(lines, h) && !IsBlank(lines[s])
    requires block != [] && !IsBlank(block[0])
    ensures var after := Spliced(lines, s, n, block);
      h + 1 < |after| && after[h] == lines[h] && FirstHeading(after) == Some(h) &&
      BlockStart(after, h) == s && LineBreakLog(after, h) == LineBreakLog(lines, h)
  {
    var after := Spliced(lines, s, n, block);
    assert forall j | 0 <= j < s :: after[j] == lines[j];
    FirstHeadingKept(lines, after, h);
    assert after[s] == block[0];
  }

  lemma FirstHeadingKept(a: seq<string>, b: seq<string>, h: nat)
    requires FirstHeading(a) == Some(h) && h < |b|
    requires forall j | 0 <= j <= h :: b[j] == a[j]
    ensures FirstHeading(b) == Some(h)
  {
    forall j | 0 <= j < h ensures !IsCharacHeading(b[j]) {
      assert b[j] == a[j];
    }
    assert b[h] == a[h];
    FirstHeadingAt(b, h);
  }

  lemma RemoveOne(lines: seq<string>, orig: seq<string>, s: nat, k: nat)
    requires s + k < |orig| && lines == orig[..s] + orig[s + k..]
    ensures lines[..s] + lines[s + 1..] == orig[..s] + orig[s + k + 1..]
  {
    assert lines[..s] == orig[..s];
    assert lines[s + 1..] == orig[s + k + 1..];
  }

  lemma InsertOne(lines: seq<string>, orig: seq<string>, block: seq<string>, s: nat, m: nat)
    requires s <= |orig| && 0 < m <= |block|
    requires lines == orig[..s] + block[m..] + orig[s..]
    ensures lines[..s] + [block[m - 1]] + lines[s..] == orig[..s] + block[m - 1..] + orig[s..]
  {
    assert lines[..s] == orig[..s];
    assert lines[s..] == block[m..] + orig[s..];
    assert block[m - 1..] == [block[m - 1]] + block[m..];
  }

  /** A note opened by `DNDMarkdown`: its lines, tags, block and the block's first line. */
  class Document {
    const stem: string
    const logger: Logger
    var lines: seq<string>
    const tags: Option<seq<string>>
    var characs: Characs
    const start: Option<nat>

    /** The dictionary is one, and it lies within the lines from its start on. */
    ghost predicate Valid()
      reads this, logger
    {
      logger.Valid() && DistinctKeys(characs) &&
      (start.None? ==> characs == []) &&
      (start.Some? ==> start.value + |characs| <= |lines|)
    }

    constructor(stem: string, logger: Logger, lines: seq<string>, tags: Option<seq<string>>,
                characs: Characs, start: Option<nat>)
      ensures this.stem == stem && this.logger == logger && this.lines == lines
      ensures this.tags == tags && this.characs == characs && this.start == start
    {
      this.stem := stem;
      this.logger := logger;
      this.lines := lines;
      this.tags := tags;
      this.characs := characs;
      this.start := start;
    }

    /** `__init__` on a note whose lines are given: the tags, then the block; fails with the
        IndexError of `_get_characteristics`. */
    static method Open(stem: string, lines: seq<string>, logger: Logger) returns (r: Result<Document, Failure>)
      requires logger.Valid()
      modifies logger
      ensures logger.Valid()
      ensures r.Err? <==> ReadResult(lines).0.Err?
      ensures r.Err? ==> r.error == ReadResult(lines).0.error
      ensures r.Ok? ==> fresh(r.value) && r.value.Valid() && r.value.logger == logger
      ensures r.Ok? ==> r.value.stem == stem && r.value.lines == lines && r.value.tags == TagsOf(lines).0
      ensures r.Ok? ==> (r.value.characs, r.value.start) == ReadResult(lines).0.value
      ensures logger.entries == old(logger.entries) + TagsOf(lines).1 + ReadResult(lines).1
    {
      var tags := ReadTags(lines, logger);
      var read := ReadCharacteristics(lines, logger);
      if read.Err? {
        return Err(read.error);
      }
      var (c, s) := read.value;
      if s.Some? {
        var h := FirstHeading(lines).value;
        BlockAtShape(lines, BlockStart(lines, h));
      }
      var d := new Document(stem, logger, lines, tags, c, s);
      return Ok(d);
    }

    /** The `characteristics` getter: the dictionary, as a value the caller cannot use to change
        the note. */
    method Characteristics() returns (r: Characs)
      ensures r == characs
    {
      r := characs;
    }

    /**
     * The `characteristics` setter: raises when the note has no block; otherwise pops as many
     * lines as the dictionary has entries at the block's start, rebuilds the dictionary in
     * canonical order and inserts one `* key: value` line per entry there.
     */
    method SetCharacteristics(input: Characs) returns (r: Result<(), Failure>)
      requires Valid() && DistinctKeys(input)
      modifies this
      ensures Valid()
      ensures r.Err? <==> old(characs) == []
      ensures r.Err? ==> r.error == NoCharacteristics && lines == old(lines) && characs == old(characs)
      ensures r.Ok? ==> characs == Reordered(input)
      ensures r.Ok? ==> lines == Rewritten(old(lines), start.value, |old(characs)|, input)
    {
      if characs == [] {
        return Err(NoCharacteristics);
      }
      var s := start.value;
      RemoveLines(s, |characs|);
      characs := Reorder(input);
      ReorderedDistinct(input);
      InsertBlock(s);
      return Ok(());
    }

    /** The pops: n lines at index s. */
    method RemoveLines(s: nat, n: nat)
      requires s + n <= |lines|
      modifies this
      ensures lines == old(lines)[..s] + old(lines)[s + n..]
      ensures characs == old(characs)
    {
      var k := 0;
      while k < n
        invariant 0 <= k <= n
        invariant lines == old(lines)[..s] + old(lines)[s + k..]
        invariant characs == old(characs)
      {
        RemoveOne(lines, old(lines), s, k);
        lines := lines[..s] + lines[s + 1..];
        k := k + 1;
      }
    }

    /** The inserts: each entry's line at index s, last entry first. */
    method InsertBlock(s: nat)
      requires s <= |lines|
      modifies this
      ensures lines == old(lines)[..s] + Render(characs) + old(lines)[s..]
      ensures characs == old(characs)
    {
      var m := |characs|;
      while m > 0
        invariant 0 <= m <= |characs|
        invariant lines == old(lines)[..s] + Render(characs)[m..] + old(lines)[s..]
        invariant characs == old(characs)
      {
        InsertOne(lines, old(lines), Render(characs), s, m);
        m := m - 1;
        var (key, val) := characs[m];
        lines := lines[..s] + [RenderLine(key, val)] + lines[s..];
      }
    }

    /** `check_integrity` on the note as it stands: the tags and block read when it was opened,
        or the rebuilt lines and dictionary after `SetCharacteristics`. */
    method CheckIntegrity() returns (r: Result<(), Failure>)
      requires Valid()
      modifies logger
      ensures Valid()
      ensures r.Err? <==> lines != [] && tags.None?
      ensures r.Err? ==> r.error == NoTagLine
      ensures logger.entries == old(logger.entries) + IntegrityLog(lines, tags, characs, stem)
    {
      r := Notes.CheckIntegrity(lines, tags, characs, stem, logger);
    }
  }
}
