/** banking/parser.py: the Parser base class, with its registry of
    subclasses, the header test and the bounded read of a file's first lines.
    A file is given by its contents: None when the path is not a file,
    otherwise the lines `readlines` returns. */
module Parser {

  import opened Wrappers
  import opened Text
  import opened Dates

  /** The file behind a path: None when `os.path.isfile` is false. */
  type FileContents = Option<seq<string>>

  // ---------------------------------------------------------------------------
  // Subclasses and their registry
  // ---------------------------------------------------------------------------

  /** A subclass's INSTITUTION as the class attribute reads: its own string,
      or, when the subclass does not define one, the base class's abstract
      property object. */
  datatype InstitutionKey = Named(name: string) | AbstractProperty

  /** What the registry and the factory see of a Parser subclass. */
  datatype ParserClass = ParserClass(
    name: string,              // __name__
    institution: InstitutionKey,
    minStart: Date,            // is_date_valid(start, stop) is start >= minStart
    checksFile: bool)          // whether its constructor is Parser.__init__

  /** `cls.is_date_valid(start, stop)`: every subclass compares only the start. */
  predicate IsDateValid(c: ParserClass, start: Date, stop: Date)
  {
    LessEq(c.minStart, start)
  }

  /** An instance: the class and the path it was built from. */
  datatype Session = Session(parser: ParserClass, filepath: string)

  /** `cls(filepath)`: Parser.__init__ raises FileNotFoundError when the path
      is not a file; a subclass with its own constructor skips the test. */
  function NewSession(c: ParserClass, filepath: string, file: FileContents): (r: Result<Session>)
    ensures r.Ok? ==> r.value == Session(c, filepath)
    ensures r.Err? <==> c.checksFile && file.None?
    ensures r.Err? ==> r.error == FileNotFoundError
  {
    if c.checksFile && file.None? then Err(FileNotFoundError) else Ok(Session(c, filepath))
  }

  predicate DistinctNames(entries: seq<ParserClass>)
  {
    forall i, j :: 0 <= i < j < |entries| ==> entries[i].name != entries[j].name
  }

  /** Position of the entry called `name`, or |entries| when there is none. */
  function NameIndex(entries: seq<ParserClass>, name: string): (i: nat)
    ensures i <= |entries|
    ensures i < |entries| ==> entries[i].name == name
    ensures forall j :: 0 <= j < i ==> entries[j].name != name
  {
    if entries == [] then 0
    else if entries[0].name == name then 0
    else 1 + NameIndex(entries[1..], name)
  }

  /** `SUBCLASSES.get(name)`. */
  function Lookup(entries: seq<ParserClass>, name: string): Option<ParserClass>
  {
    var i := NameIndex(entries, name);
    if i < |entries| then Some(entries[i]) else None
  }

  /** The registry after `SUBCLASSES[c.__name__] = c`: an existing entry of
      that name is overwritten where it stands, a new one goes last. */
  function Registered(entries: seq<ParserClass>, c: ParserClass): seq<ParserClass>
  {
    var i := NameIndex(entries, c.name);
    if i < |entries| then entries[i := c] else entries + [c]
  }

  /** Registering c makes c the entry for its name, leaves every other name's
      entry as it was, and keeps the names distinct. */
  lemma RegisteredLookup(entries: seq<ParserClass>, c: ParserClass, name: string)
    requires DistinctNames(entries)
    ensures DistinctNames(Registered(entries, c))
    ensures Lookup(Registered(entries, c), name) == if name == c.name then Some(c) else Lookup(entries, name)
  {
    var r := Registered(entries, c);
    var i := NameIndex(entries, c.name);
    var k := NameIndex(r, name);
    var k0 := NameIndex(entries, name);
    if name == c.name {
      assert r[i] == c;
      assert k == i;
    } else if k0 < |entries| {
      assert r[k0] == entries[k0];
      assert k == k0;
    } else {
      assert forall j :: 0 <= j < |r| ==> r[j].name != name;
      assert k == |r|;
    }
  }

  /** Registration never reorders: an existing name keeps its position and
      the size is unchanged; a new name is appended. */
  lemma RegisteredShape(entries: seq<ParserClass>, c: ParserClass)
    ensures var r := Registered(entries, c);
            (Lookup(entries, c.name).Some? ==>
               |r| == |entries|
               && forall j :: 0 <= j < |r| && entries[j].name != c.name ==> r[j] == entries[j])
            && (Lookup(entries, c.name).None? ==> r == entries + [c])
  {
  }

  /** `Parser.SUBCLASSES`, filled by `__init_subclass__` as each subclass is defined. */
  class Registry {
    var subclasses: seq<ParserClass>

    ghost predicate Valid()
      reads this
    {
      DistinctNames(subclasses)
    }

    constructor ()
      ensures Valid() && subclasses == []
    {
      subclasses := [];
    }

    /** `__init_subclass__` of the class `c`. */
    method InitSubclass(c: ParserClass)
      requires Valid()
      modifies this
      ensures Valid()
      ensures subclasses == Registered(old(subclasses), c)
    {
      RegisteredLookup(subclasses, c, c.name);
      var i := NameIndex(subclasses, c.name);
      if i < |subclasses| {
        subclasses := subclasses[i := c];
      } else {
        subclasses := subclasses + [c];
      }
    }
  }

  // ---------------------------------------------------------------------------
  // yield_header
  // ---------------------------------------------------------------------------

  function Max(a: int, b: int): int { if a >= b then a else b }

  /** How many lines `list(yield_header(path, rows))` holds when the file has
      n lines: each line is yielded before the test `i > rows` breaks, so the
      loop stops after index max(0, rows + 1). */
  function HeaderCount(n: nat, rows: int): (k: nat)
    ensures k <= n
    ensures n > 0 ==> k >= 1
  {
    if n == 0 then 0 else if Max(1, rows + 2) <= n then Max(1, rows + 2) else n
  }

  /** The lines `yield_header(path, rows)` yields; FileNotFoundError when the
      path is not a file. */
  function HeaderLines(file: FileContents, rows: int): Result<seq<string>>
  {
    match file
    case None => Err(FileNotFoundError)
    case Some(lines) => Ok(lines[..HeaderCount(|lines|, rows)])
  }

  /** What is read is a prefix of the file, of at most max(1, rows + 2)
      lines, and only a file shorter than that is read whole. */
  lemma HeaderLinesBound(file: FileContents, rows: int)
    ensures file.None? <==> HeaderLines(file, rows) == Err(FileNotFoundError)
    ensures file.Some? ==>
              var read := HeaderLines(file, rows).value;
              read <= file.value && |read| <= Max(1, rows + 2)
              && (|read| < |file.value| ==> |read| == Max(1, rows + 2))
  {
  }

  /** `[l for l in yield_header(path, rows)]`: yield each line, then stop once
      its index passes `rows`. */
  method YieldHeader(file: FileContents, rows: int) returns (r: Result<seq<string>>)
    ensures r == HeaderLines(file, rows)
  {
    if file.None? {
      return Err(FileNotFoundError);
    }
    var lines := file.value;
    var out: seq<string> := [];
    var i := 0;
    while i < |lines|
      invariant 0 <= i <= |lines|
      invariant out == lines[..i]
      invariant i == 0 || i <= rows + 1
    {
      out := out + [lines[i]];
      if i > rows {
        assert out == lines[..i + 1];
        assert i + 1 == Max(1, rows + 2);
        return Ok(out);
      }
      i := i + 1;
    }
    assert lines[..|lines|] == lines;
    return Ok(out);
  }

  // ---------------------------------------------------------------------------
  // check_header and is_file_parsable
  // ---------------------------------------------------------------------------

  /** `all([h in fields for h in names])` where fields is a list: exact matches. */
  predicate AllAmong(names: seq<string>, fields: seq<string>)
  {
    forall i :: 0 <= i < |names| ==> names[i] in fields
  }

  /** `all([h in line for h in names])` where line is a str: substring tests. */
  predicate AllOccurIn(names: seq<string>, line: string)
  {
    forall i :: 0 <= i < |names| ==> Contains(line, names[i])
  }

  /** Python's `xs[i]`, a negative index counting from the end. */
  function PyIndex<T>(xs: seq<T>, i: int): (r: Result<T>)
    ensures r.Err? <==> !(-|xs| <= i < |xs|)
    ensures r.Err? ==> r.error == IndexError
    ensures 0 <= i < |xs| ==> r == Ok(xs[i])
  {
    if 0 <= i < |xs| then Ok(xs[i])
    else if -|xs| <= i < 0 then Ok(xs[|xs| + i])
    else Err(IndexError)
  }

  /** `cls.check_header(path, header, row, delim)` for a class whose
      FIELD_NAMES is `names`. An explicit header is split on the delimiter
      and every name must be one of its fields; otherwise line `row` of the
      file is read and every name must occur in it as a substring. */
  function CheckHeader(names: seq<string>, file: FileContents, header: Option<string>,
                       row: int, delim: char): Result<bool>
  {
    match header
    case Some(h) => Ok(AllAmong(names, Split(h, delim)))
    case None =>
      match HeaderLines(file, row)
      case Err(e) => Err(e)
      case Ok(read) =>
        match PyIndex(read, row)
        case Err(e) => Err(e)
        case Ok(line) => Ok(AllOccurIn(names, line))
  }

  /** `cls.is_file_parsable(path, header)`: a missing file raises
      FileNotFoundError, then a filename the subclass's `_check_filename`
      refuses gives False, and only then is the header checked (row 0, ','). */
  function IsFileParsable(names: seq<string>, file: FileContents, filenameOk: bool,
                          header: Option<string>): Result<bool>
  {
    if file.None? then Err(FileNotFoundError)
    else if !filenameOk then Ok(false)
    else CheckHeader(names, file, header, 0, ',')
  }

  /** With an explicit header made of delimiter-free fields, the header test is
      exactly "every name is one of the fields", whatever the file holds. */
  lemma CheckHeaderExplicit(names: seq<string>, fields: seq<string>, file: FileContents,
                            row: int, delim: char)
    requires |fields| >= 1
    requires forall i :: 0 <= i < |fields| ==> delim !in fields[i]
    ensures CheckHeader(names, file, Some(Join(fields, delim)), row, delim)
            == Ok(forall i :: 0 <= i < |names| ==> names[i] in fields)
  {
    SplitJoin(fields, delim);
  }

  /** Order and repetition of header fields do not matter: two headers with
      the same set of fields get the same answer. */
  lemma CheckHeaderOrderIrrelevant(names: seq<string>, f1: seq<string>, f2: seq<string>,
                                   file: FileContents, row: int, delim: char)
    requires |f1| >= 1 && |f2| >= 1
    requires forall i :: 0 <= i < |f1| ==> delim !in f1[i]
    requires forall i :: 0 <= i < |f2| ==> delim !in f2[i]
    requires forall x :: x in f1 <==> x in f2
    ensures CheckHeader(names, file, Some(Join(f1, delim)), row, delim)
            == CheckHeader(names, file, Some(Join(f2, delim)), row, delim)
  {
    CheckHeaderExplicit(names, f1, file, row, delim);
    CheckHeaderExplicit(names, f2, file, row, delim);
  }

  /** A class with no field names accepts every header it can read. */
  lemma CheckHeaderNoNames(file: FileContents, header: Option<string>, row: int, delim: char)
    ensures CheckHeader([], file, header, row, delim).Ok? ==> CheckHeader([], file, header, row, delim).value
  {
  }

  /** Reading the header from the file tests substrings of its first line. */
  lemma CheckHeaderFromFile(names: seq<string>, first: string, rest: seq<string>, delim: char)
    ensures CheckHeader(names, Some([first] + rest), None, 0, delim) == Ok(AllOccurIn(names, first))
  {
  }

  /** The two header paths disagree: the line "update" read from the file
      passes for the name "date", the same text given explicitly does not. */
  lemma CheckHeaderSubstringVersusField()
    ensures CheckHeader(["date"], Some(["update"]), None, 0, ',') == Ok(true)
    ensures CheckHeader(["date"], None, Some("update"), 0, ',') == Ok(false)
  {
    ContainsInfix("up", "date", "");
    assert "up" + "date" + "" == "update";
    SplitNone("update", ',');
    var names := ["date"];
    assert names[0] !in Split("update", ',') by { assert |"date"| != |"update"|; }
    assert !AllAmong(names, Split("update", ','));
  }

  /** The filename is decided before the header, and the file's existence before both. */
  lemma IsFileParsableOrder(names: seq<string>, file: FileContents, filenameOk: bool,
                            header: Option<string>)
    ensures file.None? ==> IsFileParsable(names, file, filenameOk, header) == Err(FileNotFoundError)
    ensures file.Some? && !filenameOk ==> IsFileParsable(names, file, filenameOk, header) == Ok(false)
    ensures file.Some? && filenameOk ==>
              IsFileParsable(names, file, filenameOk, header) == CheckHeader(names, file, header, 0, ',')
  {
  }
}
