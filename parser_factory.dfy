/** banking/parser_factory.py: reading the bank, account and date range out
    of a file name, grouping the registered parsers by institution, and
    choosing the one parser whose date range fits. */
module ParserFactory {

  import opened Wrappers
  import opened Text
  import opened Dates
  import opened Parser

  // ---------------------------------------------------------------------------
  // File names
  // ---------------------------------------------------------------------------

  /** `parse_date(date)`: the two '-'-separated pieces; ValueError for any
      other number of pieces. */
  function ParseDate(date: string): (r: Result<(string, string)>)
    ensures r.Err? ==> r.error == ValueError
  {
    var parts := Split(date, '-');
    if |parts| == 2 then Ok((parts[0], parts[1])) else Err(ValueError)
  }

  /** The date field parses exactly when it holds one '-'. */
  lemma ParseDateOneDash(date: string)
    ensures ParseDate(date).Ok? <==> multiset(date)['-'] == 1
  {
    SplitCount(date, '-');
  }

  lemma ParseDateRoundTrip(d0: string, d1: string)
    requires '-' !in d0 && '-' !in d1
    ensures ParseDate(d0 + "-" + d1) == Ok((d0, d1))
  {
    SplitTwo(d0, d1, '-');
  }

  /** The file name without directory and extension. */
  function Stem(filepath: string): string
  {
    Splitext(Basename(filepath)).0
  }

  /** `_parse_path(filepath)`: the three '_'-separated fields of the stem;
      ValueError for any other number of fields. */
  function ParsePath(filepath: string): (r: Result<(string, string, string)>)
    ensures r.Err? ==> r.error == ValueError
  {
    var fields := Split(Stem(filepath), '_');
    if |fields| == 3 then Ok((fields[0], fields[1], fields[2])) else Err(ValueError)
  }

  /** The path parses exactly when its stem holds two '_'. */
  lemma ParsePathTwoUnderscores(filepath: string)
    ensures ParsePath(filepath).Ok? <==> multiset(Stem(filepath))['_'] == 2
  {
    SplitCount(Stem(filepath), '_');
  }

  /** Text that can stand for one field of a file name. */
  predicate FieldText(s: string)
  {
    '_' !in s && '/' !in s && '.' !in s
  }

  /** The stem of dir/stem.ext. */
  lemma StemOf(dir: string, stem: string, ext: string)
    requires '/' !in stem && '.' !in stem && |stem| >= 1
    requires '/' !in ext && '.' !in ext
    ensures Stem(dir + "/" + stem + "." + ext) == stem
  {
    var name := stem + "." + ext;
    assert '/' !in name;
    assert dir + "/" + stem + "." + ext == dir + "/" + name;
    BasenameOfJoin(dir, name);
    SplitextOfJoin(stem, ext);
  }

  /** A name without directory or extension is its own stem. */
  lemma StemOfPlain(stem: string)
    requires '/' !in stem && '.' !in stem
    ensures Stem(stem) == stem
  {
    SplitextNoDot(stem);
  }

  /** Three fields joined by '_' are split back. */
  lemma SplitFields(bank: string, account: string, date: string)
    requires FieldText(bank) && FieldText(account) && FieldText(date)
    ensures Split(bank + "_" + account + "_" + date, '_') == [bank, account, date]
  {
    SplitThree(bank, account, date, '_');
  }

  /** The name bank_account_date with a dot-free extension, in any
      directory, gives its three fields back. */
  lemma ParsePathRoundTrip(dir: string, bank: string, account: string, date: string, ext: string)
    requires FieldText(bank) && FieldText(account) && FieldText(date)
    requires '/' !in ext && '.' !in ext
    ensures ParsePath(dir + "/" + bank + "_" + account + "_" + date + "." + ext) == Ok((bank, account, date))
  {
    var stem := bank + "_" + account + "_" + date;
    assert dir + "/" + bank + "_" + account + "_" + date + "." + ext == dir + "/" + stem + "." + ext;
    StemOf(dir, stem, ext);
    SplitFields(bank, account, date);
  }

  /** `_name_to_keys(filepath)`: bank, account and the two dates. The stem
      goes through `_parse_path`, which strips a directory and an extension
      a second time. */
  function NameToKeys(filepath: string): Result<(string, string, string, string)>
  {
    match ParsePath(Stem(filepath))
    case Err(e) => Err(e)
    case Ok(fields) =>
      match ParseDate(fields.2)
      case Err(e) => Err(e)
      case Ok(dates) => Ok((fields.0, fields.1, dates.0, dates.1))
  }

  /** dir/bank_account_d0-d1.ext gives its four keys back. */
  lemma NameToKeysRoundTrip(dir: string, bank: string, account: string, d0: string, d1: string, ext: string)
    requires FieldText(bank) && FieldText(account) && FieldText(d0) && FieldText(d1)
    requires '-' !in d0 && '-' !in d1
    requires '/' !in ext && '.' !in ext
    ensures NameToKeys(dir + "/" + bank + "_" + account + "_" + d0 + "-" + d1 + "." + ext)
            == Ok((bank, account, d0, d1))
  {
    var date := d0 + "-" + d1;
    var stem := bank + "_" + account + "_" + date;
    var path := dir + "/" + bank + "_" + account + "_" + d0 + "-" + d1 + "." + ext;
    assert path == dir + "/" + stem + "." + ext;
    StemOf(dir, stem, ext);
    assert FieldText(date);
    ParsePathPlain(bank, account, date);
    ParseDateRoundTrip(d0, d1);
    NameToKeysOf(path, stem, (bank, account, date), (d0, d1));
  }

  /** A stem of three fields splits into them. */
  lemma ParsePathPlain(bank: string, account: string, date: string)
    requires FieldText(bank) && FieldText(account) && FieldText(date)
    ensures ParsePath(bank + "_" + account + "_" + date) == Ok((bank, account, date))
  {
    var stem := bank + "_" + account + "_" + date;
    StemOfPlain(stem);
    SplitFields(bank, account, date);
  }

  /** `_name_to_keys` composes the stem, `_parse_path` and `parse_date`. */
  lemma NameToKeysOf(path: string, stem: string, fields: (string, string, string), dates: (string, string))
    requires Stem(path) == stem && ParsePath(stem) == Ok(fields) && ParseDate(fields.2) == Ok(dates)
    ensures NameToKeys(path) == Ok((fields.0, fields.1, dates.0, dates.1))
  {
  }

  // ---------------------------------------------------------------------------
  // Choosing among candidates
  // ---------------------------------------------------------------------------

  /** `[p for p in parsers if p.is_date_valid(start, stop)]`. */
  function ValidParsers(parsers: seq<ParserClass>, start: Date, stop: Date): (r: seq<ParserClass>)
    ensures |r| <= |parsers|
    ensures forall p :: p in r <==> p in parsers && IsDateValid(p, start, stop)
  {
    if parsers == [] then []
    else
      var rest := ValidParsers(parsers[1..], start, stop);
      assert forall p :: p in parsers <==> p == parsers[0] || p in parsers[1..];
      if IsDateValid(parsers[0], start, stop) then [parsers[0]] + rest else rest
  }

  /** `_filter_parsers(parsers, start, stop)`: the valid candidate when there
      is exactly one, None when there are none and, rather than an error,
      when several overlap. */
  function FilterParsers(parsers: seq<ParserClass>, start: Date, stop: Date): Option<ParserClass>
  {
    var valid := ValidParsers(parsers, start, stop);
    if |valid| == 1 then Some(valid[0]) else None
  }

  /** A parser is chosen exactly when one candidate is valid, and it is valid. */
  lemma FilterParsersCorrect(parsers: seq<ParserClass>, start: Date, stop: Date)
    ensures FilterParsers(parsers, start, stop).Some? <==> |ValidParsers(parsers, start, stop)| == 1
    ensures FilterParsers(parsers, start, stop).Some? ==>
              var c := FilterParsers(parsers, start, stop).value;
              c in parsers && IsDateValid(c, start, stop)
              && forall q :: q in parsers && IsDateValid(q, start, stop) ==> q == c
    ensures (forall q :: q in parsers ==> !IsDateValid(q, start, stop)) ==> FilterParsers(parsers, start, stop).None?
  {
    var valid := ValidParsers(parsers, start, stop);
    if |valid| == 1 {
      assert valid[0] in valid;
      forall q | q in parsers && IsDateValid(q, start, stop) ensures q == valid[0] {
        assert q in valid;
      }
    }
    if |valid| > 0 {
      assert valid[0] in valid;
    }
  }

  /** Two different valid candidates make the choice ambiguous: None. */
  lemma FilterParsersAmbiguous(parsers: seq<ParserClass>, start: Date, stop: Date, p: ParserClass, q: ParserClass)
    requires p in parsers && q in parsers && p != q
    requires IsDateValid(p, start, stop) && IsDateValid(q, start, stop)
    ensures FilterParsers(parsers, start, stop) == None
  {
    FilterParsersCorrect(parsers, start, stop);
  }

  // ---------------------------------------------------------------------------
  // Grouping the registry
  // ---------------------------------------------------------------------------

  /** `str.lower(str(None))`: the institution that is never grouped. */
  const NoneKey: InstitutionKey := Named("none")

  /** The registered classes of one institution, in registry order. */
  function ParsersOf(entries: seq<ParserClass>, k: InstitutionKey): (r: seq<ParserClass>)
    ensures forall p :: p in r <==> p in entries && p.institution == k
    ensures !HasInstitution(entries, k) ==> r == []
  {
    if entries == [] then []
    else
      var front := ParsersOf(entries[..|entries| - 1], k);
      var last := entries[|entries| - 1];
      assert forall p :: p in entries <==> p in entries[..|entries| - 1] || p == last by {
        assert entries == entries[..|entries| - 1] + [last];
      }
      if last.institution == k then front + [last] else front
  }

  predicate HasInstitution(entries: seq<ParserClass>, k: InstitutionKey)
  {
    exists i :: 0 <= i < |entries| && entries[i].institution == k
  }

  /** The dict `_map_parsers` builds: one key per institution present other
      than "none", holding that institution's classes in registry order. */
  ghost predicate IsGrouping(m: map<InstitutionKey, seq<ParserClass>>, entries: seq<ParserClass>)
  {
    (forall k :: k in m <==> k != NoneKey && HasInstitution(entries, k))
    && (forall k :: k in m ==> m[k] == ParsersOf(entries, k))
  }

  /** One turn of the loop in `_map_parsers`: p is appended to its
      institution's list, created empty first, unless it is "none". */
  function AddParser(m: map<InstitutionKey, seq<ParserClass>>, p: ParserClass): map<InstitutionKey, seq<ParserClass>>
  {
    if p.institution == NoneKey then m
    else m[p.institution := (if p.institution in m then m[p.institution] else []) + [p]]
  }

  lemma HasInstitutionAppend(front: seq<ParserClass>, p: ParserClass, k: InstitutionKey)
    ensures HasInstitution(front + [p], k) <==> HasInstitution(front, k) || p.institution == k
  {
    var next := front + [p];
    if HasInstitution(front, k) {
      var j :| 0 <= j < |front| && front[j].institution == k;
      assert next[j] == front[j];
    }
    if p.institution == k {
      assert next[|front|] == p;
    }
  }

  /** Each turn keeps the grouping invariant over the classes seen so far. */
  lemma AddParserGroups(m: map<InstitutionKey, seq<ParserClass>>, front: seq<ParserClass>, p: ParserClass)
    requires IsGrouping(m, front)
    ensures IsGrouping(AddParser(m, p), front + [p])
  {
    var next := front + [p];
    assert next[..|next| - 1] == front && next[|next| - 1] == p;
    forall k ensures HasInstitution(next, k) <==> HasInstitution(front, k) || p.institution == k {
      HasInstitutionAppend(front, p, k);
    }
  }

  /** `_map_parsers()` over the registry. */
  method MapParsers(entries: seq<ParserClass>) returns (m: map<InstitutionKey, seq<ParserClass>>)
    ensures IsGrouping(m, entries)
  {
    m := map[];
    var i := 0;
    while i < |entries|
      invariant 0 <= i <= |entries|
      invariant IsGrouping(m, entries[..i])
    {
      AddParserGroups(m, entries[..i], entries[i]);
      assert entries[..i + 1] == entries[..i] + [entries[i]];
      m := AddParser(m, entries[i]);
      i := i + 1;
    }
    assert entries[..|entries|] == entries;
  }

  /** What the dict holds once `from_file` has looked banks up in it: every
      grouped institution still holds its classes, and a key a lookup added
      holds an empty list. */
  ghost predicate Serves(m: map<InstitutionKey, seq<ParserClass>>, entries: seq<ParserClass>)
  {
    (forall k :: k != NoneKey && HasInstitution(entries, k) ==> k in m)
    && (forall k :: k in m ==> m[k] == if k == NoneKey then [] else ParsersOf(entries, k))
  }

  /** The dict `_map_parsers` builds serves the registry. */
  lemma GroupingServes(m: map<InstitutionKey, seq<ParserClass>>, entries: seq<ParserClass>)
    requires IsGrouping(m, entries)
    ensures Serves(m, entries)
  {
  }

  /** A defaultdict lookup keeps the dict serving the registry. */
  lemma TouchedByKeysServes(m: map<InstitutionKey, seq<ParserClass>>, entries: seq<ParserClass>, bank: string)
    requires Serves(m, entries)
    ensures Serves(TouchedByKeys(m, bank), entries)
  {
    var k := BankKey(bank);
    if k !in m && k != NoneKey {
      assert !HasInstitution(entries, k);
    }
  }

  /** The empty group a lookup adds changes no later selection. */
  lemma TouchedByKeysKeepsSelect(m: map<InstitutionKey, seq<ParserClass>>, bank: string,
                                 keys: (string, string, string, string), filepath: string, file: FileContents,
                                 toDate: string -> Option<Date>)
    ensures SelectByKeys(TouchedByKeys(m, bank), keys, filepath, file, toDate)
            == SelectByKeys(m, keys, filepath, file, toDate)
  {
    assert Candidates(TouchedByKeys(m, bank), keys.0) == Candidates(m, keys.0);
  }

  /** The class names of a list of classes. */
  function ClassNames(parsers: seq<ParserClass>): (r: seq<string>)
    ensures |r| == |parsers| && forall i :: 0 <= i < |r| ==> r[i] == parsers[i].name
  {
    seq(|parsers|, i requires 0 <= i < |parsers| => parsers[i].name)
  }

  // ---------------------------------------------------------------------------
  // from_file
  // ---------------------------------------------------------------------------

  /** The dict key `from_file` looks up for a bank. */
  function BankKey(bank: string): InstitutionKey
  {
    Named(Lower(bank))
  }

  /** The candidates of `institution_to_parsers[str.lower(bank)]`: the
      defaultdict gives an empty list for a bank it does not hold. */
  function Candidates(m: map<InstitutionKey, seq<ParserClass>>, bank: string): seq<ParserClass>
  {
    if BankKey(bank) in m then m[BankKey(bank)] else []
  }

  /** The outcome of `from_file(filepath)` against the grouping `m`. The
      filename's two date fields are compared with each candidate's range
      after `toDate` converts them; ValueError when they do not convert. */
  function Select(m: map<InstitutionKey, seq<ParserClass>>, filepath: string, file: FileContents,
                  toDate: string -> Option<Date>): Result<Option<Session>>
  {
    match NameToKeys(filepath)
    case Err(e) => Err(e)
    case Ok(keys) => SelectByKeys(m, keys, filepath, file, toDate)
  }

  /** The outcome of `from_file` once the file name has given its keys. */
  function SelectByKeys(m: map<InstitutionKey, seq<ParserClass>>, keys: (string, string, string, string),
                        filepath: string, file: FileContents, toDate: string -> Option<Date>): Result<Option<Session>>
  {
    var parsers := Candidates(m, keys.0);
    if parsers == [] then Ok(None)
    else
      match (toDate(keys.2), toDate(keys.3))
      case (Some(start), Some(stop)) =>
        (match FilterParsers(parsers, start, stop)
         case None => Ok(None)
         case Some(c) =>
           match NewSession(c, filepath, file)
           case Err(e) => Err(e)
           case Ok(s) => Ok(Some(s)))
      case _ => Err(ValueError)
  }

  /** The grouping after `from_file(filepath)`: a bank looked up and not
      found is added with an empty list. */
  function Touched(m: map<InstitutionKey, seq<ParserClass>>, filepath: string): map<InstitutionKey, seq<ParserClass>>
  {
    match NameToKeys(filepath)
    case Err(_) => m
    case Ok(keys) => TouchedByKeys(m, keys.0)
  }

  /** The grouping after looking up `bank`. */
  function TouchedByKeys(m: map<InstitutionKey, seq<ParserClass>>, bank: string): map<InstitutionKey, seq<ParserClass>>
  {
    if BankKey(bank) in m then m else m[BankKey(bank) := []]
  }

  /** Once the file name gives its keys, `from_file` depends on them alone. */
  lemma SelectThroughKeys(m: map<InstitutionKey, seq<ParserClass>>, filepath: string, file: FileContents,
                          toDate: string -> Option<Date>)
    requires NameToKeys(filepath).Ok?
    ensures Select(m, filepath, file, toDate) == SelectByKeys(m, NameToKeys(filepath).value, filepath, file, toDate)
    ensures Touched(m, filepath) == TouchedByKeys(m, NameToKeys(filepath).value.0)
  {
    var keys := NameToKeys(filepath);
    assert keys == Ok(keys.value);
  }

  /** An unknown bank yields None, not KeyError, and an empty group appears for it. */
  lemma SelectUnknownBank(m: map<InstitutionKey, seq<ParserClass>>, filepath: string, file: FileContents,
                          toDate: string -> Option<Date>)
    requires NameToKeys(filepath).Ok? && BankKey(NameToKeys(filepath).value.0) !in m
    ensures Select(m, filepath, file, toDate) == Ok(None)
    ensures Touched(m, filepath) == m[BankKey(NameToKeys(filepath).value.0) := []]
  {
    SelectThroughKeys(m, filepath, file, toDate);
  }

  /** A `from_file` lookup of one path changes no later `from_file` outcome. */
  lemma TouchedKeepsSelect(m: map<InstitutionKey, seq<ParserClass>>, first: string, filepath: string,
                           file: FileContents, toDate: string -> Option<Date>)
    ensures Select(Touched(m, first), filepath, file, toDate) == Select(m, filepath, file, toDate)
  {
    var k1, k2 := NameToKeys(first), NameToKeys(filepath);
    if k1.Err? {
      assert Touched(m, first) == m;
    } else if k2.Ok? {
      SelectThroughKeys(m, first, file, toDate);
      SelectThroughKeys(m, filepath, file, toDate);
      SelectThroughKeys(Touched(m, first), filepath, file, toDate);
      TouchedByKeysKeepsSelect(m, k1.value.0, k2.value, filepath, file, toDate);
    }
  }

  /** A chosen parser belongs to the file's bank (compared in lower case),
      is the only one of that bank whose range holds the dates, and is
      built on the given path. */
  lemma SelectSound(registry: seq<ParserClass>, m: map<InstitutionKey, seq<ParserClass>>,
                    filepath: string, file: FileContents, toDate: string -> Option<Date>)
    requires Serves(m, registry)
    requires Select(m, filepath, file, toDate).Ok? && Select(m, filepath, file, toDate).value.Some?
    ensures var keys := NameToKeys(filepath).value;
            var s := Select(m, filepath, file, toDate).value.value;
            var start, stop := toDate(keys.2).value, toDate(keys.3).value;
            s.filepath == filepath && s.parser in registry
            && s.parser.institution == Named(Lower(keys.0))
            && IsDateValid(s.parser, start, stop)
            && (forall q :: q in registry && q.institution == s.parser.institution && IsDateValid(q, start, stop)
                  ==> q == s.parser)
  {
    var keys := NameToKeys(filepath).value;
    SelectThroughKeys(m, filepath, file, toDate);
    SelectByKeysSound(registry, m, keys, filepath, file, toDate);
  }

  /** SelectSound once the file name has given its keys. */
  lemma SelectByKeysSound(registry: seq<ParserClass>, m: map<InstitutionKey, seq<ParserClass>>,
                          keys: (string, string, string, string), filepath: string, file: FileContents,
                          toDate: string -> Option<Date>)
    requires Serves(m, registry)
    requires SelectByKeys(m, keys, filepath, file, toDate).Ok?
    requires SelectByKeys(m, keys, filepath, file, toDate).value.Some?
    ensures var s := SelectByKeys(m, keys, filepath, file, toDate).value.value;
            var start, stop := toDate(keys.2).value, toDate(keys.3).value;
            s.filepath == filepath && s.parser in registry
            && s.parser.institution == Named(Lower(keys.0))
            && IsDateValid(s.parser, start, stop)
            && (forall q :: q in registry && q.institution == s.parser.institution && IsDateValid(q, start, stop)
                  ==> q == s.parser)
  {
    var start, stop := toDate(keys.2).value, toDate(keys.3).value;
    var parsers := Candidates(m, keys.0);
    assert parsers == ParsersOf(registry, BankKey(keys.0));
    FilterParsersCorrect(parsers, start, stop);
  }

  /** A class whose institution holds an upper-case letter, such as
      "Totally Legit Bank", is never chosen. */
  lemma SelectNeverUpperCase(registry: seq<ParserClass>, m: map<InstitutionKey, seq<ParserClass>>,
                             filepath: string, file: FileContents, toDate: string -> Option<Date>, i: nat)
    requires Serves(m, registry)
    requires Select(m, filepath, file, toDate).Ok? && Select(m, filepath, file, toDate).value.Some?
    requires var inst := Select(m, filepath, file, toDate).value.value.parser.institution;
             inst.Named? && i < |inst.name|
    ensures !('A' <= Select(m, filepath, file, toDate).value.value.parser.institution.name[i] <= 'Z')
  {
    SelectSound(registry, m, filepath, file, toDate);
    LowerHasNoUpper(NameToKeys(filepath).value.0, i);
  }

  /** `ParserFactory`: the registry grouped by institution at construction. */
  class ParserFactory {
    var institutionToParsers: map<InstitutionKey, seq<ParserClass>>
    /** The classes registered when the factory was built. */
    ghost var registry: seq<ParserClass>

    /** The dict keeps serving the registry across lookups. */
    ghost predicate Valid()
      reads this
    {
      Serves(institutionToParsers, registry)
    }

    /** `ParserFactory()`, over the classes registered so far. */
    constructor (registry: seq<ParserClass>)
      ensures Valid() && this.registry == registry
      ensures IsGrouping(institutionToParsers, registry)
    {
      var m := MapParsers(registry);
      institutionToParsers := m;
      this.registry := registry;
      GroupingServes(m, registry);
    }

    /** `from_file(filepath)`; the defaultdict lookup may add an empty group. */
    method FromFile(filepath: string, file: FileContents, toDate: string -> Option<Date>)
      returns (r: Result<Option<Session>>)
      requires Valid()
      modifies this
      ensures Valid() && registry == old(registry)
      ensures r == Select(old(institutionToParsers), filepath, file, toDate)
      ensures institutionToParsers == Touched(old(institutionToParsers), filepath)
    {
      var keys := NameToKeys(filepath);
      if keys.Err? {
        return Err(keys.error);
      }
      SelectThroughKeys(institutionToParsers, filepath, file, toDate);
      r := FromKeys(keys.value, filepath, file, toDate);
    }

    /** The rest of `from_file`, after `_name_to_keys` has given the keys. */
    method FromKeys(keys: (string, string, string, string), filepath: string, file: FileContents,
                    toDate: string -> Option<Date>)
      returns (r: Result<Option<Session>>)
      requires Valid()
      modifies this
      ensures Valid() && registry == old(registry)
      ensures r == SelectByKeys(old(institutionToParsers), keys, filepath, file, toDate)
      ensures institutionToParsers == TouchedByKeys(old(institutionToParsers), keys.0)
    {
      TouchedByKeysServes(institutionToParsers, registry, keys.0);
      var (bank, account, date0, date1) := keys;
      var key := BankKey(bank);
      if key !in institutionToParsers {
        institutionToParsers := institutionToParsers[key := []];
      }
      var parsers := institutionToParsers[key];
      if parsers == [] {
        return Ok(None);
      }
      var start, stop := toDate(date0), toDate(date1);
      if start.None? || stop.None? {
        return Err(ValueError);
      }
      var parser := FilterParsers(parsers, start.value, stop.value);
      if parser.None? {
        return Ok(None);
      }
      var session := NewSession(parser.value, filepath, file);
      if session.Err? {
        return Err(session.error);
      }
      return Ok(Some(session.value));
    }

    /** `parser_names()`: each institution mapped to a one-element list
        holding the list of its class names. */
    method ParserNames() returns (r: map<InstitutionKey, seq<seq<string>>>)
      ensures r.Keys == institutionToParsers.Keys
      ensures forall k :: k in r ==> r[k] == [ClassNames(institutionToParsers[k])]
    {
      r := map[];
      var remaining := institutionToParsers.Keys;
      while remaining != {}
        invariant remaining <= institutionToParsers.Keys
        invariant r.Keys == institutionToParsers.Keys - remaining
        invariant forall k :: k in r ==> r[k] == [ClassNames(institutionToParsers[k])]
        decreases |remaining|
      {
        var k :| k in remaining;
        r := r[k := [ClassNames(institutionToParsers[k])]];
        remaining := remaining - {k};
      }
    }
  }
}
