/** The names of a database's files: filename.cc, and the number parser of util/logging.cc. */
module FileName {
  import opened Bytes

  datatype FileType = LogFile | DbLockFile | TableFile | DescriptorFile | CurrentFile | TempFile | InfoLogFile

  predicate IsDigit(c: char) {
    '0' <= c <= '9'
  }

  function DigitValue(c: char): (d: nat)
    requires IsDigit(c)
    ensures d < 10
  {
    c as int - '0' as int
  }

  predicate IsNumeral(s: string) {
    s != "" && AllDigits(s)
  }

  predicate AllDigits(s: string) {
    forall i :: 0 <= i < |s| ==> IsDigit(s[i])
  }

  /** The number a string of decimal digits stands for. */
  function DecimalValue(s: string): nat
    requires AllDigits(s)
  {
    if s == "" then 0 else DecimalValue(s[..|s| - 1]) * 10 + DigitValue(s[|s| - 1])
  }

  // ---- printing ----

  /** The conversion %llu. */
  function Digits(n: nat): (s: string)
    ensures IsNumeral(s)
  {
    var last := ('0' as int + n % 10) as char;
    if n < 10 then [last] else Digits(n / 10) + [last]
  }

  function ZeroDigits(n: nat): (s: string)
    ensures |s| == n && forall i :: 0 <= i < n ==> s[i] == '0'
  {
    seq(n, _ => '0')
  }

  /** The conversion %06llu. */
  function Padded(n: nat): (s: string)
    ensures IsNumeral(s) && |s| >= 6
  {
    var s := Digits(n);
    if |s| < 6 then ZeroDigits(6 - |s|) + s else s
  }

  function MakeFileName(dbname: string, number: nat, suffix: string): string {
    dbname + "/" + Padded(number) + "." + suffix
  }

  /** The files of a database, each with its constructor function's number. */
  datatype File = Log(number: nat) | Table(number: nat) | SstTable(number: nat) | Descriptor(number: nat)
                | Temp(number: nat) | Current | Lock | InfoLog | OldInfoLog {

    /** What the constructor functions demand of the number: an uint64_t other than 0. */
    predicate InRange() {
      Current? || Lock? || InfoLog? || OldInfoLog? || 0 < number < TWO_TO_THE_64
    }

    function Kind(): FileType {
      match this
      case Log(_) => LogFile
      case Table(_) => TableFile
      case SstTable(_) => TableFile
      case Descriptor(_) => DescriptorFile
      case Temp(_) => TempFile
      case Current => CurrentFile
      case Lock => DbLockFile
      case InfoLog => InfoLogFile
      case OldInfoLog => InfoLogFile
    }

    function Number(): nat {
      if Current? || Lock? || InfoLog? || OldInfoLog? then 0 else number
    }
  }

  /** LogFileName, TableFileName, SSTTableFileName, DescriptorFileName, TempFileName,
      CurrentFileName, LockFileName, InfoLogFileName and OldInfoLogFileName. */
  function NameOf(dbname: string, f: File): string {
    match f
    case Log(n) => MakeFileName(dbname, n, "log")
    case Table(n) => MakeFileName(dbname, n, "ldb")
    case SstTable(n) => MakeFileName(dbname, n, "sst")
    case Descriptor(n) => dbname + "/MANIFEST-" + Padded(n)
    case Temp(n) => MakeFileName(dbname, n, "dbtmp")
    case Current => dbname + "/CURRENT"
    case Lock => dbname + "/LOCK"
    case InfoLog => dbname + "/LOG"
    case OldInfoLog => dbname + "/LOG.old"
  }

  // ---- parsing ----

  /** The length of the longest prefix of digits. */
  function DigitRun(s: string): (n: nat)
    ensures n <= |s| && AllDigits(s[..n])
  {
    if s == "" || !IsDigit(s[0]) then 0
    else
      assert s[..1 + DigitRun(s[1..])] == [s[0]] + s[1..][..DigitRun(s[1..])];
      1 + DigitRun(s[1..])
  }

  /** The number at the start of s and what follows it. */
  function NumberAt(s: string): Option<(nat, string)> {
    var n := DigitRun(s);
    if n == 0 || DecimalValue(s[..n]) >= TWO_TO_THE_64 then None
    else Some((DecimalValue(s[..n]), s[n..]))
  }

  lemma {:induction false} RunEnds(s: string, n: nat)
    requires n <= |s| && AllDigits(s[..n]) && (n < |s| ==> !IsDigit(s[n]))
    ensures DigitRun(s) == n
  {
    if n > 0 {
      assert s[0] == s[..n][0];
      assert s[1..][..n - 1] == s[..n][1..];
      RunEnds(s[1..], n - 1);
    }
  }

  lemma {:induction false} RunContinues(s: string, n: nat)
    requires n < |s| && AllDigits(s[..n]) && IsDigit(s[n])
    ensures DigitRun(s) > n
  {
    if n > 0 {
      assert s[0] == s[..n][0];
      assert s[1..][..n - 1] == s[..n][1..];
      RunContinues(s[1..], n - 1);
    }
  }

  lemma {:induction false} PrefixIsSmaller(s: string, n: nat)
    requires AllDigits(s) && n <= |s|
    ensures DecimalValue(s[..n]) <= DecimalValue(s)
    decreases |s|
  {
    if n == |s| {
      assert s[..n] == s;
    } else {
      assert s[..|s| - 1][..n] == s[..n];
      PrefixIsSmaller(s[..|s| - 1], n);
    }
  }

  const MAX_UINT64: nat := TWO_TO_THE_64 - 1

  /** ConsumeDecimalNumber: the overflow check before each digit rejects exactly the numbers
      that do not fit 64 bits. */
  method ConsumeDecimalNumber(s: string) returns (ok: bool, val: nat, rest: string)
    ensures ok == NumberAt(s).Some?
    ensures ok ==> NumberAt(s) == Some((val, rest))
  {
    hide DecimalValue, DigitRun;
    var lastDigitOfMaxUint64 := ('0' as int + MAX_UINT64 % 10) as char;
    val, rest := 0, s;
    var current := 0;
    EmptyNumber();
    assert s[..0] == "";
    while current < |s|
      invariant 0 <= current <= |s| && AllDigits(s[..current])
      invariant val == DecimalValue(s[..current]) && val < TWO_TO_THE_64
      invariant rest == s
    {
      var ch := s[current];
      if ch < '0' || ch > '9' {
        break;
      }
      RunContinues(s, current);
      NextDigit(s, current);
      if val > MAX_UINT64 / 10 || (val == MAX_UINT64 / 10 && ch > lastDigitOfMaxUint64) {
        var n := DigitRun(s);
        assert s[..n][..current + 1] == s[..current + 1];
        PrefixIsSmaller(s[..n], current + 1);
        return false, val, s;
      }
      val := val * 10 + (ch as int - '0' as int);
      current := current + 1;
    }
    RunEnds(s, current);
    rest := s[current..];
    ok := current != 0;
  }

  lemma EmptyNumber()
    ensures DecimalValue("") == 0
  {
  }

  lemma NextDigit(s: string, i: nat)
    requires i < |s| && AllDigits(s[..i]) && IsDigit(s[i])
    ensures AllDigits(s[..i + 1])
    ensures DecimalValue(s[..i + 1]) == DecimalValue(s[..i]) * 10 + DigitValue(s[i])
  {
    assert s[..i + 1][..i] == s[..i];
  }

  predicate StartsWith(s: string, prefix: string) {
    |s| >= |prefix| && s[..|prefix|] == prefix
  }

  const MANIFEST: string := "MANIFEST-"

  /** What ParseFileName makes of a base name. */
  function ParsedName(name: string): Option<(nat, FileType)> {
    if name == "CURRENT" then Some((0, CurrentFile))
    else if name == "LOCK" then Some((0, DbLockFile))
    else if name == "LOG" || name == "LOG.old" then Some((0, InfoLogFile))
    else if StartsWith(name, MANIFEST) then
      match NumberAt(name[|MANIFEST|..])
      case None => None
      case Some((n, rest)) => if rest == "" then Some((n, DescriptorFile)) else None
    else
      match NumberAt(name)
      case None => None
      case Some((n, rest)) =>
        match KindOfSuffix(rest)
        case None => None
        case Some(kind) => Some((n, kind))
  }

  function KindOfSuffix(suffix: string): Option<FileType> {
    if suffix == ".log" then Some(LogFile)
    else if suffix == ".sst" || suffix == ".ldb" then Some(TableFile)
    else if suffix == ".dbtmp" then Some(TempFile)
    else None
  }

  /** ParseFileName; number and kind are meaningful only on success. */
  method ParseFileName(filename: string) returns (ok: bool, number: nat, kind: FileType)
    ensures ok == ParsedName(filename).Some?
    ensures ok ==> ParsedName(filename) == Some((number, kind))
  {
    hide NumberAt;
    var rest := filename;
    number, kind := 0, CurrentFile;
    if rest == "CURRENT" {
      return true, 0, CurrentFile;
    } else if rest == "LOCK" {
      return true, 0, DbLockFile;
    } else if rest == "LOG" || rest == "LOG.old" {
      return true, 0, InfoLogFile;
    } else if StartsWith(rest, MANIFEST) {
      rest := rest[|MANIFEST|..];
      ok, number, rest := ConsumeDecimalNumber(rest);
      if !ok || rest != "" {
        return false, number, kind;
      }
      kind := DescriptorFile;
    } else {
      ok, number, rest := ConsumeDecimalNumber(rest);
      if !ok {
        return;
      }
      var suffix := rest;
      if suffix == ".log" {
        kind := LogFile;
      } else if suffix == ".sst" || suffix == ".ldb" {
        kind := TableFile;
      } else if suffix == ".dbtmp" {
        kind := TempFile;
      } else {
        ok := false;
      }
    }
  }

  // ---- the names that parse ----

  /** A numeral for the 64-bit number n between a prefix and a suffix. */
  predicate Numbered(name: string, prefix: string, suffix: string, n: nat) {
    && |name| > |prefix| + |suffix|
    && name[..|prefix|] == prefix && name[|name| - |suffix|..] == suffix
    && IsNumeral(name[|prefix|..|name| - |suffix|])
    && DecimalValue(name[|prefix|..|name| - |suffix|]) == n < TWO_TO_THE_64
  }

  /** The file name grammar: which names are owned by a database, with which number and type. */
  predicate OwnedName(name: string, n: nat, kind: FileType) {
    match kind
    case CurrentFile => name == "CURRENT" && n == 0
    case DbLockFile => name == "LOCK" && n == 0
    case InfoLogFile => (name == "LOG" || name == "LOG.old") && n == 0
    case DescriptorFile => Numbered(name, MANIFEST, "", n)
    case LogFile => Numbered(name, "", ".log", n)
    case TableFile => Numbered(name, "", ".sst", n) || Numbered(name, "", ".ldb", n)
    case TempFile => Numbered(name, "", ".dbtmp", n)
  }

  /** A name is a numeral and a suffix exactly when its number ends where the suffix begins. */
  lemma NumberedIsNumberAt(name: string, suffix: string, n: nat)
    requires suffix == "" || !IsDigit(suffix[0])
    ensures Numbered(name, "", suffix, n) <==> NumberAt(name) == Some((n, suffix))
  {
    hide DecimalValue, DigitRun;
    if Numbered(name, "", suffix, n) {
      var d := |name| - |suffix|;
      assert name[0..d] == name[..d];
      if d < |name| {
        assert name[d] == name[d..][0];
      }
      RunEnds(name, d);
    }
    var d := DigitRun(name);
    if d > 0 && name[d..] == suffix {
      assert |name| - |suffix| == d && name[0..d] == name[..d];
      assert name[..0] == "";
    }
  }

  /** ParseFileName accepts exactly the names of the grammar, and says which they are. */
  lemma ParsesExactlyOwnedNames(name: string, n: nat, kind: FileType)
    ensures ParsedName(name) == Some((n, kind)) <==> OwnedName(name, n, kind)
  {
    hide NumberAt, Numbered;
    ManifestNumber(name, n);
    NumberedIsNumberAt(name, ".log", n);
    NumberedIsNumberAt(name, ".sst", n);
    NumberedIsNumberAt(name, ".ldb", n);
    NumberedIsNumberAt(name, ".dbtmp", n);
    NumbersStartWithDigits(name);
  }

  lemma ManifestNumber(name: string, n: nat)
    ensures Numbered(name, MANIFEST, "", n) <==>
              StartsWith(name, MANIFEST) && NumberAt(name[|MANIFEST|..]) == Some((n, ""))
  {
    hide NumberAt, DecimalValue;
    if StartsWith(name, MANIFEST) {
      var rest := name[|MANIFEST|..];
      NumberedIsNumberAt(rest, "", n);
      assert name[|name|..] == "" && rest[|rest|..] == "" && rest[..0] == "";
      assert name[|MANIFEST|..|name|] == rest && rest[0..|rest|] == rest;
    }
  }

  lemma NumbersStartWithDigits(name: string)
    ensures NumberAt(name).Some? ==> name != "" && IsDigit(name[0])
  {
  }

  // ---- round trip ----

  lemma {:induction false} ValueOfDigits(n: nat)
    ensures DecimalValue(Digits(n)) == n
  {
    var s := Digits(n);
    if n >= 10 {
      ValueOfDigits(n / 10);
      assert s[..|s| - 1] == Digits(n / 10);
    } else {
      assert s[..0] == "";
    }
  }

  lemma {:induction false} LeadingZeros(k: nat, s: string)
    requires AllDigits(s)
    ensures AllDigits(ZeroDigits(k) + s) && DecimalValue(ZeroDigits(k) + s) == DecimalValue(s)
    decreases k + |s|
  {
    var z := ZeroDigits(k) + s;
    if s != "" {
      assert z[..|z| - 1] == ZeroDigits(k) + s[..|s| - 1];
      LeadingZeros(k, s[..|s| - 1]);
    } else if k > 0 {
      assert z[..|z| - 1] == ZeroDigits(k - 1) + s;
      LeadingZeros(k - 1, s);
    }
  }

  lemma ValueOfPadded(n: nat)
    ensures DecimalValue(Padded(n)) == n
  {
    ValueOfDigits(n);
    if |Digits(n)| < 6 {
      LeadingZeros(6 - |Digits(n)|, Digits(n));
    }
  }

  function Pow10(n: nat): (p: nat)
    ensures p > 0
  {
    if n == 0 then 1 else 10 * Pow10(n - 1)
  }

  /** A number is printed with k digits at most exactly when it is below 10^k, and without leading
      zeros. */
  lemma {:induction false} DigitsOf(n: nat, k: nat)
    requires k > 0
    ensures |Digits(n)| <= k <==> n < Pow10(k)
    ensures n > 0 ==> Digits(n)[0] != '0'
    decreases n
  {
    if n >= 10 {
      DigitsOf(n / 10, if k > 1 then k - 1 else 1);
    } else {
      TenAtLeast(k);
    }
  }

  lemma {:induction false} TenAtLeast(k: nat)
    requires k > 0
    ensures Pow10(k) >= 10
  {
    if k > 1 {
      TenAtLeast(k - 1);
    }
  }

  /** Zeros fill up to six digits and no further; longer numbers are printed as they are. */
  lemma PaddedToSix(n: nat)
    ensures n < 1000000 ==> |Padded(n)| == 6
    ensures n >= 1000000 ==> Padded(n) == Digits(n) && |Padded(n)| > 6 && Padded(n)[0] != '0'
  {
    DigitsOf(n, 6);
    assert Pow10(2) == 100 && Pow10(3) == 1000 && Pow10(4) == 10000 && Pow10(5) == 100000;
  }

  lemma PaddedSeven()
    ensures Padded(7) == "000007"
  {
    assert Digits(7) == "7";
    assert ZeroDigits(5) == "00000";
  }

  /** The names in a database directory "db". */
  lemma NumberedExamples()
    ensures NameOf("db", Log(7)) == "db/000007.log" && NameOf("db", Table(7)) == "db/000007.ldb"
    ensures NameOf("db", SstTable(7)) == "db/000007.sst" && NameOf("db", Temp(7)) == "db/000007.dbtmp"
  {
    hide Padded, NameOf;
    PaddedSeven();
    var p := "db" + "/" + "000007";
    InDirectoryDb(p);
    NumberedNames();
  }

  lemma NumberedNames()
    ensures NameOf("db", Log(7)) == "db" + "/" + Padded(7) + "." + "log"
    ensures NameOf("db", Table(7)) == "db" + "/" + Padded(7) + "." + "ldb"
    ensures NameOf("db", SstTable(7)) == "db" + "/" + Padded(7) + "." + "sst"
    ensures NameOf("db", Temp(7)) == "db" + "/" + Padded(7) + "." + "dbtmp"
  {
    hide Padded;
  }

  lemma InDirectoryDb(p: string)
    requires p == "db" + "/" + "000007"
    ensures p + "." + "log" == "db/000007.log" && p + "." + "ldb" == "db/000007.ldb"
    ensures p + "." + "sst" == "db/000007.sst" && p + "." + "dbtmp" == "db/000007.dbtmp"
  {
    assert p == "db/000007";
    var q := p + ".";
    assert q == "db/000007.";
  }

  lemma PlainExamples()
    ensures NameOf("db", Descriptor(7)) == "db/MANIFEST-000007"
    ensures NameOf("db", Current) == "db/CURRENT" && NameOf("db", Lock) == "db/LOCK"
    ensures NameOf("db", InfoLog) == "db/LOG" && NameOf("db", OldInfoLog) == "db/LOG.old"
  {
    hide Padded;
    PaddedSeven();
    assert "db" + "/MANIFEST-" == "db/MANIFEST-";
    assert "db/MANIFEST-" + "000007" == "db/MANIFEST-000007";
  }

  /** Names that are and are not owned. */
  lemma ParseExamples()
    ensures ParsedName("CURRENT") == Some((0, CurrentFile)) && ParsedName("LOCK") == Some((0, DbLockFile))
    ensures ParsedName("LOG") == Some((0, InfoLogFile)) && ParsedName("LOG.old") == Some((0, InfoLogFile))
    ensures ParsedName("").None? && ParsedName(".log").None? && ParsedName("MANIFEST-").None?
  {
    hide DecimalValue;
  }

  lemma PaddedIsNumbered(prefix: string, n: nat, suffix: string)
    requires n < TWO_TO_THE_64
    ensures Numbered(prefix + Padded(n) + suffix, prefix, suffix, n)
  {
    hide DecimalValue, Padded;
    ValueOfPadded(n);
    var name := prefix + Padded(n) + suffix;
    assert name[|prefix|..|name| - |suffix|] == Padded(n);
  }

  /** The part of a file name behind the database directory. */
  function BaseName(f: File): string {
    match f
    case Log(n) => Padded(n) + ".log"
    case Table(n) => Padded(n) + ".ldb"
    case SstTable(n) => Padded(n) + ".sst"
    case Descriptor(n) => MANIFEST + Padded(n)
    case Temp(n) => Padded(n) + ".dbtmp"
    case Current => "CURRENT"
    case Lock => "LOCK"
    case InfoLog => "LOG"
    case OldInfoLog => "LOG.old"
  }

  lemma NumberedName(dbname: string, n: nat, suffix: string)
    ensures MakeFileName(dbname, n, suffix) == dbname + "/" + (Padded(n) + ("." + suffix))
  {
    hide Padded;
  }

  lemma LogAndTableSuffixes()
    ensures ".log" == "." + "log" && ".ldb" == "." + "ldb"
  {
  }

  lemma SstAndTempSuffixes()
    ensures ".sst" == "." + "sst" && ".dbtmp" == "." + "dbtmp"
  {
  }

  lemma PlainNames()
    ensures "/CURRENT" == "/" + "CURRENT" && "/LOCK" == "/" + "LOCK"
    ensures "/LOG" == "/" + "LOG" && "/LOG.old" == "/" + "LOG.old"
  {
  }

  lemma ManifestPrefix()
    ensures "/MANIFEST-" == "/" + MANIFEST
  {
  }

  lemma NumberedInDirectory(dbname: string, f: File)
    requires f.Log? || f.Table? || f.SstTable? || f.Temp?
    ensures NameOf(dbname, f) == dbname + "/" + BaseName(f)
  {
    hide Padded, MakeFileName;
    match f {
      case Log(n) =>
        NumberedName(dbname, n, "log");
        LogAndTableSuffixes();
      case Table(n) =>
        NumberedName(dbname, n, "ldb");
        LogAndTableSuffixes();
      case SstTable(n) =>
        NumberedName(dbname, n, "sst");
        SstAndTempSuffixes();
      case Temp(n) =>
        NumberedName(dbname, n, "dbtmp");
        SstAndTempSuffixes();
    }
  }

  lemma NameInDirectory(dbname: string, f: File)
    ensures NameOf(dbname, f) == dbname + "/" + BaseName(f)
  {
    hide Padded, MakeFileName;
    if f.Descriptor? {
      ManifestPrefix();
    } else if f.Current? || f.Lock? || f.InfoLog? || f.OldInfoLog? {
      PlainNames();
    } else {
      NumberedInDirectory(dbname, f);
    }
  }

  /** Parsing the base name of any file name the constructor functions make gives its number
      and type. */
  lemma NameRoundTrip(f: File)
    requires f.InRange()
    ensures ParsedName(BaseName(f)) == Some((f.Number(), f.Kind()))
  {
    hide Numbered, Padded, ParsedName;
    ParsesExactlyOwnedNames(BaseName(f), f.Number(), f.Kind());
    var p := Padded(f.Number());
    assert "" + p == p && MANIFEST + p + "" == MANIFEST + p;
    match f {
      case Log(n) => PaddedIsNumbered("", n, ".log");
      case Table(n) => PaddedIsNumbered("", n, ".ldb");
      case SstTable(n) => PaddedIsNumbered("", n, ".sst");
      case Descriptor(n) => PaddedIsNumbered(MANIFEST, n, "");
      case Temp(n) => PaddedIsNumbered("", n, ".dbtmp");
      case _ =>
    }
  }

  /** Different files of a database never have the same name. */
  lemma NamesAreDistinct(dbname: string, f: File, g: File)
    requires f.InRange() && g.InRange() && NameOf(dbname, f) == NameOf(dbname, g)
    ensures f == g
  {
    hide ParsedName, Padded, NameOf;
    NameInDirectory(dbname, f);
    NameInDirectory(dbname, g);
    assert BaseName(f) == (dbname + "/" + BaseName(f))[|dbname| + 1..];
    assert BaseName(g) == (dbname + "/" + BaseName(g))[|dbname| + 1..];
    NameRoundTrip(f);
    NameRoundTrip(g);
    if f.Table? || f.SstTable? {
      LastLetter(f);
      LastLetter(g);
    }
  }

  /** The two suffixes of tables differ. */
  lemma LastLetter(f: File)
    requires f.Table? || f.SstTable?
    ensures BaseName(f) != "" && BaseName(f)[|BaseName(f)| - 1] == if f.Table? then 'b' else 't'
  {
  }
}
