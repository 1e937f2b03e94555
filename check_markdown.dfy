/**
 * `DNDMarkDown`, the older note class: it reads the tags and the characteristics block of a note
 * when it is opened and checks the note. It differs from `DNDMarkdown` in where the block starts:
 * two lines below the heading, or one when the line right below is not blank; blank lines are
 * not skipped.
 */
module CheckMarkdown {
  import opened Wrappers
  import opened Text
  import opened Logging
  import opened Characs
  import opened Notes
  import DndMarkdown

  // ---------------------------------------------------------------------------------------------
  // Reading the characteristics block

  /** The line the block starts on, for a heading at h that is not the last line: the one after
      the heading when that is not blank (`line_idx -= 1`), otherwise the one after that. */
  function BlockStart(lines: seq<string>, h: nat): (s: nat)
    requires h + 1 < |lines|
    ensures h < s <= |lines|
  {
    if IsBlank(lines[h + 1]) then h + 2 else h + 1
  }

  /**
   * `_get_characteristics`: the dictionary, or the IndexError raised when the heading is the last
   * line; with the messages logged.
   */
  function ReadResult(lines: seq<string>): (Result<Characs, Failure>, seq<Entry>) {
    match FirstHeading(lines)
    case None => (Ok([]), [])
    case Some(h) => ReadFrom(lines, h)
  }

  /** What is returned and logged once the heading is found at h. */
  function ReadFrom(lines: seq<string>, h: nat): (Result<Characs, Failure>, seq<Entry>)
    requires h < |lines|
  {
    if h + 1 == |lines| then (Err(HeadingOnLastLine), HeadingLog(lines[h]))
    else
      var s := BlockStart(lines, h);
      (Ok(BlockAt(lines, s).0), HeadingLog(lines[h]) + LineBreakLog(lines, h) + BlockAt(lines, s).1)
  }

  /** The dictionary read is one, and only the heading on the last line makes reading fail. */
  lemma ReadShape(lines: seq<string>)
    ensures ReadResult(lines).0.Err? <==> FirstHeading(lines).Some? && FirstHeading(lines).value == |lines| - 1
    ensures ReadResult(lines).0.Ok? ==> DistinctKeys(ReadResult(lines).0.value)
  {
    match FirstHeading(lines)
    case None =>
    case Some(h) =>
      if h + 1 < |lines| {
        BlockAtShape(lines, BlockStart(lines, h));
      }
  }

  /** A blank line holds no ':', so it ends (or empties) a block. */
  lemma BlankHasNoColon(line: string)
    requires IsBlank(line)
    ensures ':' !in line
  {
    forall i | 0 <= i < |line| ensures line[i] != ':' {
      assert IsSpace(line[i]);
    }
  }

  /** Two blank lines after the heading give an empty dictionary: the second one is where the
      block is read from, and it holds no ':'. */
  lemma SecondBlankLineEmptiesBlock(lines: seq<string>, h: nat)
    requires h + 2 < |lines| && IsBlank(lines[h + 1]) && IsBlank(lines[h + 2])
    ensures ReadFrom(lines, h) == (Ok([]), HeadingLog(lines[h]))
  {
    BlankLineEmptiesBlock(lines, h + 2);
    assert LineBreakLog(lines, h) == [];
    assert HeadingLog(lines[h]) + [] + [] == HeadingLog(lines[h]);
  }

  lemma BlankLineEmptiesBlock(lines: seq<string>, i: nat)
    requires i < |lines| && IsBlank(lines[i])
    ensures BlockAt(lines, i) == ([], [])
  {
    BlankHasNoColon(lines[i]);
    assert BlockLen(lines, i) == 0;
    assert lines[i..i] == [];
  }

  /**
   * For the same heading, both versions read the same block, with the same messages, unless
   * two blank lines follow the heading: when it is the last line (both raise), when the line
   * after it is not blank, or when that line is blank and is the last one or is followed by a
   * non-blank line.
   */
  lemma VersionsAgree(lines: seq<string>, h: nat)
    requires h < |lines|
    requires h + 2 >= |lines| || !IsBlank(lines[h + 1]) || !IsBlank(lines[h + 2])
    ensures ReadFrom(lines, h).0.Err? <==> DndMarkdown.ReadFrom(lines, h).0.Err?
    ensures ReadFrom(lines, h).0.Ok? ==> ReadFrom(lines, h).0.value == DndMarkdown.ReadFrom(lines, h).0.value.0
    ensures ReadFrom(lines, h).1 == DndMarkdown.ReadFrom(lines, h).1
  {
    if h + 1 == |lines| {
    } else if h + 2 == |lines| && IsBlank(lines[h + 1]) {
      // this version reads from past the end, `DNDMarkdown` from the blank last line
      assert DndMarkdown.BlockStart(lines, h) == h + 1;
      BlankLineEmptiesBlock(lines, h + 1);
      assert BlockLen(lines, h + 2) == 0;
      assert lines[h + 2..h + 2] == [];
    } else {
      assert DndMarkdown.BlockStart(lines, h) == BlockStart(lines, h) by {
        if IsBlank(lines[h + 1]) {
          assert DndMarkdown.FirstNonBlankFrom(lines, h + 2) == h + 2;
        }
      }
    }
  }

  /**
   * With two blank lines after the heading and a non-blank one next, `DNDMarkdown` starts the
   * block on that line, while this version reads an empty dictionary.
   */
  lemma VersionsDiverge(lines: seq<string>, h: nat)
    requires h + 3 < |lines| && IsBlank(lines[h + 1]) && IsBlank(lines[h + 2]) && !IsBlank(lines[h + 3])
    ensures ReadFrom(lines, h).0 == Ok([])
    ensures DndMarkdown.ReadFrom(lines, h).0 == Ok((BlockAt(lines, h + 3).0, Some(h + 3)))
  {
    SecondBlankLineEmptiesBlock(lines, h);
    assert DndMarkdown.BlockStart(lines, h) == h + 3 by {
      assert DndMarkdown.FirstNonBlankFrom(lines, h + 3) == h + 3;
      assert DndMarkdown.FirstNonBlankFrom(lines, h + 2) == h + 3;
    }
  }

  /**
   * `_get_characteristics`: finds the first characteristics heading, checks the line after it
   * and reads the block from where `BlockStart` says.
   */
  method ReadCharacteristics(lines: seq<string>, logger: Logger) returns (r: Result<Characs, Failure>)
    requires logger.Valid()
    modifies logger
    ensures logger.Valid()
    ensures r == ReadResult(lines).0
    ensures logger.entries == old(logger.entries) + ReadResult(lines).1
  {
    var found := FindHeading(lines, logger);
    if found.None? {
      assert logger.entries == old(logger.entries) + [];
      return Ok([]);
    }
    r := ReadFromHeading(lines, found.value, old(logger.entries), logger);
  }

  /** The part of `_get_characteristics` after the heading at h is found and its errors logged
      after `logged`. */
  method ReadFromHeading(lines: seq<string>, h: nat, ghost logged: seq<Entry>, logger: Logger)
    returns (r: Result<Characs, Failure>)
    requires h < |lines| && logger.Valid()
    requires logger.entries == logged + HeadingLog(lines[h])
    modifies logger
    ensures logger.Valid()
    ensures r == ReadFrom(lines, h).0
    ensures logger.entries == logged + ReadFrom(lines, h).1
  {
    if h + 1 == |lines| {
      return Err(HeadingOnLastLine);
    }
    ghost var headed := logger.entries;
    var lineIdx: int := h;
    if !IsBlank(lines[h + 1]) {
      logger.Log(Error, NoLineBreakMessage);
      lineIdx := lineIdx - 1;
    }
    assert logger.entries == headed + LineBreakLog(lines, h);
    assert lineIdx + 2 == BlockStart(lines, h);
    var c := ReadBlock(lines, lineIdx + 2, logger);
    ghost var (a, b, d) := (HeadingLog(lines[h]), LineBreakLog(lines, h), BlockAt(lines, lineIdx + 2).1);
    assert logger.entries == logged + a + b + d;
    Concat4(logged, a, b, d);
    Concat3(a, b, d);
    return Ok(c);
  }

  // ---------------------------------------------------------------------------------------------
  // The note

  /** A note opened by `DNDMarkDown`: its lines, tags and block. */
  class Document {
    const logger: Logger
    const lines: seq<string>
    const tags: Option<seq<string>>
    const characs: Characs

    ghost predicate Valid()
      reads this, logger
    {
      logger.Valid() && DistinctKeys(characs)
    }

    constructor(logger: Logger, lines: seq<string>, tags: Option<seq<string>>, characs: Characs)
      ensures this.logger == logger && this.lines == lines
      ensures this.tags == tags && this.characs == characs
    {
      this.logger := logger;
      this.lines := lines;
      this.tags := tags;
      this.characs := characs;
    }

    /** `__init__` on a note whose lines are given: the tags, then the block; fails with the
        IndexError of `_get_characteristics`. */
    static method Open(lines: seq<string>, logger: Logger) returns (r: Result<Document, Failure>)
      requires logger.Valid()
      modifies logger
      ensures logger.Valid()
      ensures r.Err? <==> ReadResult(lines).0.Err?
      ensures r.Err? ==> r.error == ReadResult(lines).0.error
      ensures r.Ok? ==> fresh(r.value) && r.value.Valid() && r.value.logger == logger
      ensures r.Ok? ==> r.value.lines == lines && r.value.tags == TagsOf(lines).0
      ensures r.Ok? ==> r.value.characs == ReadResult(lines).0.value
      ensures logger.entries == old(logger.entries) + TagsOf(lines).1 + ReadResult(lines).1
    {
      var tags := ReadTags(lines, logger);
      var read := ReadCharacteristics(lines, logger);
      if read.Err? {
        return Err(read.error);
      }
      ReadShape(lines);
      var d := new Document(logger, lines, tags, read.value);
      return Ok(d);
    }

    /** `check_integrity`; the file name the title is checked against is the module-global
        `path` of the script's directory scan, passed here as `stem`. */
    method CheckIntegrity(stem: string) returns (r: Result<(), Failure>)
      requires Valid()
      modifies logger
      ensures Valid()
      ensures r.Err? <==> lines != [] && tags.None?
      ensures r.Err? ==> r.error == NoTagLine
      ensures logger.entries == old(logger.entries) + IntegrityLog(lines, tags, characs, stem)
    {
      r := Notes.CheckIntegrity(lines, tags, characs, stem, logger);
    }
  }
}
