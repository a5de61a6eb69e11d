/**
 * The command-line driver of cldump.c: the memo file name and signature check of
 * clarion_open_memo, the option rules of main (one-character separator,
 * exclusive CSV/SQL output, key location 1..4, the defaults and the forced data
 * dump), the encryption dispatch and the order of the dumps.
 */
module Cldump {
  import opened Clarion
  import Records

  // ---------------------------------------------------------------------------
  // clarion_open_memo

  /** The memo file name: the data file name with its last three characters replaced by "MEM". */
  function MemoFileName(datfile: string): (r: string)
    requires |datfile| >= 3
    ensures |r| == |datfile|
    ensures r[..|r| - 3] == datfile[..|datfile| - 3] && r[|r| - 3..] == "MEM"
  {
    datfile[..|datfile| - 3] + "MEM"
  }

  /**
   * clarion_open_memo on the file `mem` (None when it cannot be opened): nothing is
   * opened when the header says there is no memo file (Ok(false)); otherwise the
   * file must open and start with the memo signature (Ok(true)).
   */
  function OpenMemo(sfatr: nat, mem: Option<seq<byte>>): (r: Result<bool>)
    ensures r == Ok(false) <==> !HasMask(sfatr, MemoFileExists)
    ensures r.Err? ==> r.error == NoMemoFile || r.error == BadMemoSignature
    ensures r.Err? && r.error == NoMemoFile <==> HasMask(sfatr, MemoFileExists) && mem.None?
    ensures r == Ok(true) <==>
      HasMask(sfatr, MemoFileExists) && mem.Some? && |mem.value| >= 2 && U16(mem.value, 0) == MemoFileSig
  {
    if !HasMask(sfatr, MemoFileExists) then Ok(false)
    else if mem.None? then Err(NoMemoFile)
    else if |mem.value| < 2 || U16(mem.value, 0) != MemoFileSig then Err(BadMemoSignature)
    else Ok(true)
  }

  /** The memo file name as clarion_open_memo builds it: a copy of the data file name with its last three characters overwritten. */
  method MemoFileNameOf(datfile: string) returns (memfile: string)
    requires |datfile| >= 3
    ensures memfile == MemoFileName(datfile)
  {
    memfile := datfile;
    var n := |memfile|;
    memfile := memfile[n - 1 := 'M'];
    memfile := memfile[n - 2 := 'E'];
    memfile := memfile[n - 3 := 'M'];
    assert memfile[..n - 3] == datfile[..n - 3];
    assert memfile[n - 3..] == "MEM";
    assert memfile == memfile[..n - 3] + memfile[n - 3..];
  }

  // ---------------------------------------------------------------------------
  // The options

  /** The bits of the opts mask. */
  datatype Flag = DumpActive | DumpData | DumpMeta | CsvOutput | SqlOutput | Schema | NoMemo | Utf8 | Decrypt

  /** The flags from the lowest bit of opts up. */
  const FlagOrder: seq<Flag> := [DumpActive, DumpData, DumpMeta, CsvOutput, SqlOutput, Schema, NoMemo, Utf8, Decrypt]

  /** The position of a flag's bit. */
  function Index(f: Flag): (i: nat)
    ensures i < |FlagOrder| && FlagOrder[i] == f
  {
    match f
    case DumpActive => 0
    case DumpData => 1
    case DumpMeta => 2
    case CsvOutput => 3
    case SqlOutput => 4
    case Schema => 5
    case NoMemo => 6
    case Utf8 => 7
    case Decrypt => 8
  }

  function Pow2(i: nat): (r: nat)
    ensures r > 0
  {
    if i == 0 then 1 else 2 * Pow2(i - 1)
  }

  /** The value of a flag in the unsigned short opts of the handle. */
  function Bit(f: Flag): nat
  {
    Pow2(Index(f))
  }

  /** The bits are the option constants of the handle. */
  lemma BitValues()
    ensures Bit(DumpActive) == OptDumpActive && Bit(DumpData) == OptDumpData && Bit(DumpMeta) == OptDumpMeta
    ensures Bit(CsvOutput) == OptCsvOutput && Bit(SqlOutput) == OptSqlOutput && Bit(Schema) == OptSchema
    ensures Bit(NoMemo) == OptNoMemo && Bit(Utf8) == OptUtf8 && Bit(Decrypt) == OptDecrypt
  {
    assert Pow2(2) == 4 && Pow2(3) == 8 && Pow2(4) == 16 && Pow2(5) == 32;
    assert Pow2(6) == 64 && Pow2(7) == 128 && Pow2(8) == 256;
  }

  /** The mask of the flags `fs` lists from the lowest bit up. */
  function Bits(fs: seq<Flag>, opts: set<Flag>): nat
  {
    if |fs| == 0 then 0 else (if fs[0] in opts then 1 else 0) + 2 * Bits(fs[1..], opts)
  }

  /** The opts mask of a set of flags: the OR of their bits. */
  function Mask(opts: set<Flag>): nat
  {
    Bits(FlagOrder, opts)
  }

  /** Halving drops the lowest bit. */
  lemma DivDouble(b: nat, x: nat, d: nat)
    requires b < 2 && d > 0
    ensures (b + 2 * x) / (2 * d) == x / d
  {
    var q, r := x / d, x % d;
    assert x == d * q + r;
    assert b + 2 * x == (2 * d) * q + (2 * r + b);
    DivUnique(b + 2 * x, 2 * d, q, 2 * r + b);
  }

  /** Bit i of the mask is set exactly when the i-th listed flag is in the set. */
  lemma {:induction false} BitsAt(fs: seq<Flag>, opts: set<Flag>, i: nat)
    requires i < |fs|
    ensures HasMask(Bits(fs, opts), Pow2(i)) <==> fs[i] in opts
  {
    var b := if fs[0] in opts then 1 else 0;
    if i > 0 {
      BitsAt(fs[1..], opts, i - 1);
      DivDouble(b, Bits(fs[1..], opts), Pow2(i - 1));
    }
  }

  /** Shifting by a + b is shifting by a, then by b. */
  lemma {:induction false} Pow2Add(a: nat, b: nat)
    ensures Pow2(a + b) == Pow2(a) * Pow2(b)
    decreases a
  {
    if a > 0 {
      Pow2Add(a - 1, b);
    }
  }

  /** The mask of `fs` uses only its |fs| lowest bits. */
  lemma {:induction false} BitsBound(fs: seq<Flag>, opts: set<Flag>)
    ensures Bits(fs, opts) < Pow2(|fs|)
  {
    if |fs| > 0 {
      BitsBound(fs[1..], opts);
    }
  }

  /** Every combination of flags fits the unsigned short opts of the handle. */
  lemma MaskFits(opts: set<Flag>)
    ensures Mask(opts) < 512
  {
    BitsBound(FlagOrder, opts);
    Pow2Add(1, 8);
    assert Pow2(1) == 2 && Pow2(8) == 256;
  }

  /** Testing a bit of the mask is testing membership of its flag. */
  lemma MaskBit(opts: set<Flag>, f: Flag)
    ensures HasMask(Mask(opts), Bit(f)) <==> f in opts
  {
    BitsAt(FlagOrder, opts, Index(f));
  }

  /** The default mask DUMP_DATA | DUMP_META | SCHEMA. */
  lemma DefaultMask()
    ensures Mask({DumpData, DumpMeta, Schema}) == OptDefault
  {
    var o := {DumpData, DumpMeta, Schema};
    var fs := FlagOrder;
    assert Bits(fs[9..], o) == 0;
    assert Bits(fs[8..], o) == 0 by { assert fs[8..][1..] == fs[9..]; }
    assert Bits(fs[7..], o) == 0 by { assert fs[7..][1..] == fs[8..]; }
    assert Bits(fs[6..], o) == 0 by { assert fs[6..][1..] == fs[7..]; }
    assert Bits(fs[5..], o) == 1 by { assert fs[5..][1..] == fs[6..]; }
    assert Bits(fs[4..], o) == 2 by { assert fs[4..][1..] == fs[5..]; }
    assert Bits(fs[3..], o) == 4 by { assert fs[3..][1..] == fs[4..]; }
    assert Bits(fs[2..], o) == 9 by { assert fs[2..][1..] == fs[3..]; }
    assert Bits(fs[1..], o) == 19 by { assert fs[1..][1..] == fs[2..]; }
  }

  /** One option as getopt_long hands it to main, with its argument. */
  datatype Opt =
    | ActiveOnly            // -d
    | AllData               // -D
    | MetaInfo              // -m
    | FieldSep(arg: string) // -f
    | Csv                   // -c
    | Sql                   // -S
    | SchemaInfo            // -s
    | MySql                 // -M
    | SkipMemo              // -n
    | Charset(name: Option<string>) // -U, --utf8
    | KeyLocation(arg: string)     // -x

  /** The fields of the handle main fills in from the options. */
  datatype Settings = Settings(
    opts: set<Flag>, fsep: char, qb: char, qe: char, decmode: nat, charset: Option<string>)

  /** Why main stops while reading the options. */
  datatype OptError = LongSeparator | SqlAlreadyGiven | CsvAlreadyGiven | BadKeyLocation

  datatype Outcome = Parsed(s: Settings) | Refused(e: OptError)

  /** The handle before the options: no flag, ';' as separator, '"' as both quotes. */
  const Initial := Settings({}, ';', '"', '"', 0, None)

  // atoi

  predicate IsSpace(c: char)
  {
    c == ' ' || c == '\t' || c == '\n' || c == '\r' || c as int == 11 || c as int == 12
  }

  predicate IsDigit(c: char)
  {
    48 <= c as int <= 57
  }

  /** The value of the leading digits of `s`, as strtol reads them in base 10. */
  function LeadingValue(s: string): nat
  {
    LeadingValueFrom(s, 0)
  }

  function LeadingValueFrom(s: string, acc: nat): nat
    decreases |s|
  {
    if |s| == 0 || !IsDigit(s[0]) then acc else LeadingValueFrom(s[1..], 10 * acc + (s[0] as int - 48))
  }

  /**
   * atoi: leading white space, an optional sign, then the digits; 0 when there are
   * none. A string of digits alone is read as the number it spells.
   */
  function Atoi(s: string): (r: int)
    ensures (forall i :: 0 <= i < |s| ==> IsDigit(s[i])) ==> r == DecValue(s)
    ensures |s| > 0 && s[0] == '-' ==> r <= 0
  {
    var t := s[Spaces(s)..];
    DigitsValue(s);
    if |t| > 0 && t[0] == '-' then -(LeadingValue(t[1..]) as int)
    else if |t| > 0 && t[0] == '+' then LeadingValue(t[1..])
    else LeadingValue(t)
  }

  /** The number of white-space characters atoi skips. */
  function Spaces(s: string): (n: nat)
    ensures n <= |s| && (n < |s| ==> !IsSpace(s[n]))
    ensures forall i :: 0 <= i < n ==> IsSpace(s[i])
  {
    if |s| > 0 && IsSpace(s[0]) then 1 + Spaces(s[1..]) else 0
  }

  /** strtol's digit loop, one digit more: the value grows by ten times and the digit. */
  lemma {:induction false} LeadingValueSnoc(s: string, c: char, acc: nat)
    requires (forall i :: 0 <= i < |s| ==> IsDigit(s[i])) && IsDigit(c)
    ensures LeadingValueFrom(s + [c], acc) == 10 * LeadingValueFrom(s, acc) + (c as int - 48)
    decreases |s|
  {
    if |s| == 0 {
      assert ([] + [c])[1..] == [];
    } else {
      assert (s + [c])[1..] == s[1..] + [c];
      LeadingValueSnoc(s[1..], c, 10 * acc + (s[0] as int - 48));
    }
  }

  /** A string of digits is read as the number it spells. */
  lemma {:induction false} LeadingValueDigits(s: string)
    requires forall i :: 0 <= i < |s| ==> IsDigit(s[i])
    ensures LeadingValue(s) == DecValue(s)
    decreases |s|
  {
    if |s| > 0 {
      var t, c := s[..|s| - 1], s[|s| - 1];
      assert s == t + [c];
      LeadingValueDigits(t);
      LeadingValueSnoc(t, c, 0);
    }
  }

  lemma DigitsValue(s: string)
    ensures (forall i :: 0 <= i < |s| ==> IsDigit(s[i])) ==> LeadingValue(s) == DecValue(s)
  {
    if forall i :: 0 <= i < |s| ==> IsDigit(s[i]) {
      LeadingValueDigits(s);
    }
  }

  /** atoi reads back what "%d" prints. */
  lemma AtoiNatToString(n: nat)
    ensures Atoi(NatToString(n)) == n
  {
    NatToStringRoundTrip(n);
    var d := NatToString(n);
    forall i | 0 <= i < |d| ensures IsDigit(d[i]) {
    }
  }

  /** The conversion of an int to the unsigned char decmode: reduction modulo 256. */
  function UChar(x: int): (r: nat)
    ensures r < 256 && (r - x) % 256 == 0
  {
    x % 256
  }

  /** The key location check of -x as written: atoi's value is stored in an unsigned char before the 1..4 test. */
  function KeyModeAsWritten(arg: string): (r: Option<nat>)
    ensures r.Some? <==> 1 <= Atoi(arg) % 256 <= 4
    ensures r.Some? ==> r.value == Atoi(arg) % 256
  {
    var m := UChar(Atoi(arg));
    if 1 <= m <= 4 then Some(m) else None
  }

  /** A number above 4 gets through the check once it is reduced to a byte. */
  lemma KeyModeAsWrittenWraps()
    ensures KeyModeAsWritten("257") == Some(1)
  {
    assert "257"[1..] == "57" && "57"[1..] == "7" && "7"[1..] == "";
    assert LeadingValue("257") == 257;
  }

  /** So does a negative number. */
  lemma KeyModeAsWrittenNegative()
    ensures KeyModeAsWritten("-255") == Some(1)
  {
    assert "-255"[1..] == "255" && "255"[1..] == "55" && "55"[1..] == "5" && "5"[1..] == "";
    assert LeadingValue("255") == 255;
  }

  /** The key location check as intended: the number given must itself be 1..4. */
  function KeyMode(arg: string): (r: Option<nat>)
    ensures r.Some? <==> 1 <= Atoi(arg) <= 4
    ensures r.Some? ==> r.value == Atoi(arg)
  {
    var m := Atoi(arg);
    if 1 <= m <= 4 then Some(m) else None
  }

  /** Wherever the intended check accepts, the written one accepts the same mode. */
  lemma KeyModeAgrees(arg: string)
    requires KeyMode(arg).Some?
    ensures KeyModeAsWritten(arg) == KeyMode(arg)
  {
  }

  /** The flag an option sets in opts, if any. */
  function FlagOf(o: Opt): Option<Flag>
  {
    match o
    case ActiveOnly => Some(DumpActive)
    case AllData => Some(DumpData)
    case MetaInfo => Some(DumpMeta)
    case Csv => Some(CsvOutput)
    case Sql => Some(SqlOutput)
    case SchemaInfo => Some(Schema)
    case SkipMemo => Some(NoMemo)
    case Charset(_) => Some(Utf8)
    case KeyLocation(_) => Some(Decrypt)
    case FieldSep(_) => None
    case MySql => None
  }

  /** The flags the options of a command line set. */
  function FlagsGiven(args: seq<Opt>): set<Flag>
  {
    set i | 0 <= i < |args| && FlagOf(args[i]).Some? :: FlagOf(args[i]).value
  }

  /** The flags of one more option. */
  lemma FlagsGivenSnoc(args: seq<Opt>)
    requires |args| > 0
    ensures var o := args[|args| - 1];
      FlagsGiven(args) == FlagsGiven(args[..|args| - 1]) + (if FlagOf(o).Some? then {FlagOf(o).value} else {})
  {
    var n := |args| - 1;
    var o := args[n];
    var pre := args[..n];
    forall f | f in FlagsGiven(args)
      ensures f in FlagsGiven(pre) + (if FlagOf(o).Some? then {FlagOf(o).value} else {})
    {
      var i :| 0 <= i < |args| && FlagOf(args[i]).Some? && FlagOf(args[i]).value == f;
      if i < n {
        assert pre[i] == args[i];
      }
    }
    forall f | f in FlagsGiven(pre)
      ensures f in FlagsGiven(args)
    {
      var i :| 0 <= i < n && FlagOf(pre[i]).Some? && FlagOf(pre[i]).value == f;
      assert args[i] == pre[i];
    }
  }

  /**
   * The effect of one option on the handle, or the error that stops main. An
   * accepted option adds its own flag and no other; only a long separator, the
   * second of -c and -S, and a key location outside 1..4 once reduced to a byte
   * are refused.
   */
  function Apply(s: Settings, o: Opt): (r: Outcome)
    ensures r.Parsed? ==> r.s.opts == s.opts + (if FlagOf(o).Some? then {FlagOf(o).value} else {})
    ensures r.Refused? <==>
      (o.FieldSep? && |o.arg| > 1) || (o == Csv && SqlOutput in s.opts) || (o == Sql && CsvOutput in s.opts)
      || (o.KeyLocation? && KeyModeAsWritten(o.arg).None?)
  {
    match o
    case ActiveOnly => Parsed(s.(opts := s.opts + {DumpActive}))
    case AllData => Parsed(s.(opts := s.opts + {DumpData}))
    case MetaInfo => Parsed(s.(opts := s.opts + {DumpMeta}))
    case FieldSep(arg) =>
      if |arg| > 1 then Refused(LongSeparator)
      else Parsed(s.(fsep := if |arg| == 0 then 0 as char else arg[0]))
    case Csv => if SqlOutput in s.opts then Refused(SqlAlreadyGiven) else Parsed(s.(opts := s.opts + {CsvOutput}))
    case Sql => if CsvOutput in s.opts then Refused(CsvAlreadyGiven) else Parsed(s.(opts := s.opts + {SqlOutput}))
    case SchemaInfo => Parsed(s.(opts := s.opts + {Schema}))
    case MySql => Parsed(s.(qb := '`', qe := '`'))
    case SkipMemo => Parsed(s.(opts := s.opts + {NoMemo}))
    case Charset(name) => Parsed(s.(opts := s.opts + {Utf8}, charset := Some(if name.Some? then name.value else "ISO8859-1")))
    case KeyLocation(arg) =>
      match KeyModeAsWritten(arg)
      case None => Refused(BadKeyLocation)
      case Some(m) => Parsed(s.(opts := s.opts + {Decrypt}, decmode := m))
  }

  /**
   * The options in order, from the initial handle; the first refused option stops
   * the loop. An accepted command line sets exactly the flags its options name.
   */
  function ParseOpts(args: seq<Opt>): (r: Outcome)
    ensures r.Parsed? ==> r.s.opts == FlagsGiven(args)
  {
    if |args| == 0 then Parsed(Initial)
    else
      FlagsGivenSnoc(args);
      match ParseOpts(args[..|args| - 1])
      case Refused(e) => Refused(e)
      case Parsed(s) => Apply(s, args[|args| - 1])
  }

  /** What every accepted command line satisfies: not both CSV and SQL, and a key location 1..4 under -x. */
  predicate Consistent(s: Settings)
  {
    !(CsvOutput in s.opts && SqlOutput in s.opts)
    && (Decrypt in s.opts ==> 1 <= s.decmode <= 4)
  }

  /** Accepted options never ask for both CSV and SQL output, and -x always holds a key location 1..4. */
  lemma {:induction false} ParsedConsistent(args: seq<Opt>)
    requires ParseOpts(args).Parsed?
    ensures Consistent(ParseOpts(args).s)
  {
    if |args| > 0 {
      ParsedConsistent(args[..|args| - 1]);
    }
  }

  /** A separator argument of more than one character stops main, wherever it comes. */
  lemma {:induction false} LongSeparatorRefused(args: seq<Opt>, i: nat)
    requires i < |args| && args[i].FieldSep? && |args[i].arg| > 1
    ensures ParseOpts(args).Refused?
  {
    if i < |args| - 1 {
      assert args[..|args| - 1][i] == args[i];
      LongSeparatorRefused(args[..|args| - 1], i);
    }
  }

  /** Giving -c and -S in either order stops main. */
  lemma {:induction false} CsvSqlRefused(args: seq<Opt>, i: nat, j: nat)
    requires i < j < |args|
    requires (args[i] == Csv && args[j] == Sql) || (args[i] == Sql && args[j] == Csv)
    ensures ParseOpts(args).Refused?
  {
    if j < |args| - 1 {
      assert args[..|args| - 1][i] == args[i] && args[..|args| - 1][j] == args[j];
      CsvSqlRefused(args[..|args| - 1], i, j);
    } else {
      KeepsOutput(args[..j], i);
    }
  }

  /** Once -c or -S is accepted, every later handle keeps that flag. */
  lemma {:induction false} KeepsOutput(args: seq<Opt>, i: nat)
    requires i < |args| && (args[i] == Csv || args[i] == Sql)
    ensures ParseOpts(args).Parsed? ==>
      (args[i] == Csv ==> CsvOutput in ParseOpts(args).s.opts) && (args[i] == Sql ==> SqlOutput in ParseOpts(args).s.opts)
  {
    if i < |args| - 1 {
      assert args[..|args| - 1][i] == args[i];
      KeepsOutput(args[..|args| - 1], i);
    }
  }

  /** The getopt loop: each option updates the handle in place; an error ends the loop. */
  method ReadOptions(args: seq<Opt>) returns (r: Outcome)
    ensures r == ParseOpts(args)
  {
    var opts: set<Flag> := {};
    var fsep, qb, qe, decmode: nat, charset: Option<string> := ';', '"', '"', 0, None;
    for i := 0 to |args|
      invariant ParseOpts(args[..i]) == Parsed(Settings(opts, fsep, qb, qe, decmode, charset))
    {
      assert args[..i + 1][..i] == args[..i];
      match args[i]
      case ActiveOnly => opts := opts + {DumpActive};
      case AllData => opts := opts + {DumpData};
      case MetaInfo => opts := opts + {DumpMeta};
      case FieldSep(arg) =>
        if |arg| > 1 {
          RefusedStays(args, i + 1);
          return Refused(LongSeparator);
        }
        fsep := if |arg| == 0 then 0 as char else arg[0];
      case Csv =>
        if SqlOutput in opts {
          RefusedStays(args, i + 1);
          return Refused(SqlAlreadyGiven);
        }
        opts := opts + {CsvOutput};
      case Sql =>
        if CsvOutput in opts {
          RefusedStays(args, i + 1);
          return Refused(CsvAlreadyGiven);
        }
        opts := opts + {SqlOutput};
      case SchemaInfo => opts := opts + {Schema};
      case MySql => qb, qe := '`', '`';
      case SkipMemo => opts := opts + {NoMemo};
      case Charset(name) =>
        opts := opts + {Utf8};
        charset := Some(if name.Some? then name.value else "ISO8859-1");
      case KeyLocation(arg) =>
        var m := UChar(Atoi(arg));
        if m < 1 || m > 4 {
          RefusedStays(args, i + 1);
          return Refused(BadKeyLocation);
        }
        decmode := m;
        opts := opts + {Decrypt};
    }
    assert args[..|args|] == args;
    return Parsed(Settings(opts, fsep, qb, qe, decmode, charset));
  }

  /** A refusal is final: later options are not looked at. */
  lemma {:induction false} RefusedStays(args: seq<Opt>, i: nat)
    requires i <= |args| && ParseOpts(args[..i]).Refused?
    ensures ParseOpts(args) == ParseOpts(args[..i])
    decreases |args| - i
  {
    if i < |args| {
      assert args[..i + 1][..i] == args[..i];
      RefusedStays(args, i + 1);
    } else {
      assert args[..i] == args;
    }
  }

  // ---------------------------------------------------------------------------
  // Normalisation

  /** The mask after the options: the default with none, and DUMP_DATA forced when only output modifiers were given. */
  function Normalise(opts: set<Flag>): (r: set<Flag>)
    ensures opts == {} ==> r == {DumpData, DumpMeta, Schema}
    ensures opts != {} ==> opts <= r <= opts + {DumpData}
  {
    if opts == {} then {DumpData, DumpMeta, Schema}
    else if DumpActive !in opts && DumpData !in opts
      && (NoMemo in opts || CsvOutput in opts || SqlOutput in opts)
      && DumpMeta !in opts && Schema !in opts
    then opts + {DumpData}
    else opts
  }

  /** What Normalise adds: DUMP_DATA exactly when output modifiers came without any dump request. */
  lemma NormaliseForces(opts: set<Flag>)
    requires opts != {}
    ensures Normalise(opts) != opts <==>
      DumpActive !in opts && DumpData !in opts && DumpMeta !in opts && Schema !in opts
      && (NoMemo in opts || CsvOutput in opts || SqlOutput in opts)
  {
  }

  /** After normalisation something is dumped, unless the only flags are -U and -x. */
  lemma NormaliseDumps(opts: set<Flag>)
    requires !(opts != {} && opts <= {Utf8, Decrypt})
    ensures var r := Normalise(opts); DumpActive in r || DumpData in r || DumpMeta in r || Schema in r
  {
    if opts != {} && DumpActive !in opts && DumpData !in opts && DumpMeta !in opts && Schema !in opts
      && NoMemo !in opts && CsvOutput !in opts && SqlOutput !in opts
    {
      forall f | f in opts
        ensures f in {Utf8, Decrypt}
      {
        assert f.DumpActive? || f.DumpData? || f.DumpMeta? || f.CsvOutput? || f.SqlOutput? || f.Schema?
          || f.NoMemo? || f.Utf8? || f.Decrypt?;
      }
    }
  }

  /** -U alone is not an output modifier for the forcing rule: it selects no dump at all. */
  lemma Utf8AloneDumpsNothing()
    ensures var r := Normalise({Utf8}); DumpActive !in r && DumpData !in r && DumpMeta !in r && Schema !in r
  {
  }

  // ---------------------------------------------------------------------------
  // The dispatch

  /** The layout of a schema or data dump: CSV before SQL before the plain text. */
  datatype Format = PlainFormat | CsvFormat | SqlFormat

  function FormatOf(opts: set<Flag>): Format
  {
    if CsvOutput in opts then CsvFormat else if SqlOutput in opts then SqlFormat else PlainFormat
  }

  /**
   * What main does once the header is read: decrypt an encrypted file under -x,
   * refuse an encrypted file without it, stop on -x for a plain file; otherwise open
   * the memo file unless -n, then the metadata dump, the schema and the data, each when asked.
   */
  datatype Plan =
    | DecryptFile(mode: nat)
    | EncryptedRefused
    | NotEncrypted
    | DumpFile(openMemo: bool, meta: bool, schema: Option<Format>, data: Option<Format>)

  function PlanOf(opts: set<Flag>, decmode: nat, sfatr: nat): (r: Plan)
    ensures r.DecryptFile? <==> HasMask(sfatr, RecordsEncrypted) && Decrypt in opts
    ensures r.DumpFile? <==> !HasMask(sfatr, RecordsEncrypted) && Decrypt !in opts
    ensures r.DumpFile? ==> (r.openMemo <==> NoMemo !in opts)
    ensures r.DumpFile? ==> (r.meta <==> DumpMeta in opts)
    ensures r.DumpFile? ==> (r.schema.Some? <==> Schema in opts) && (r.data.Some? <==> DumpData in opts || DumpActive in opts)
    ensures r.DumpFile? && r.schema.Some? && r.data.Some? ==> r.schema == r.data
  {
    if HasMask(sfatr, RecordsEncrypted) then
      if Decrypt in opts then DecryptFile(decmode) else EncryptedRefused
    else if Decrypt in opts then NotEncrypted
    else
      DumpFile(NoMemo !in opts, DumpMeta in opts,
        if Schema in opts then Some(FormatOf(opts)) else None,
        if DumpData in opts || DumpActive in opts then Some(FormatOf(opts)) else None)
  }

  /**
   * The steps of main after the options, on the normalised mask: None when an
   * option stops it. An encrypted file is decrypted exactly when -x was accepted,
   * and a dump opens the memo file exactly when -n was not given.
   */
  function Main(args: seq<Opt>, sfatr: nat): (r: Option<Plan>)
    ensures r.None? <==> ParseOpts(args).Refused?
    ensures r.Some? ==>
      (r.value.DecryptFile? <==> HasMask(sfatr, RecordsEncrypted) && exists i :: 0 <= i < |args| && args[i].KeyLocation?)
    ensures r.Some? && r.value.DumpFile? ==> (r.value.openMemo <==> forall i :: 0 <= i < |args| ==> args[i] != SkipMemo)
  {
    DecryptGiven(args);
    NoMemoGiven(args);
    match ParseOpts(args)
    case Refused(_) => None
    case Parsed(s) => Some(PlanOf(Normalise(s.opts), s.decmode, sfatr))
  }

  /** A flag is set by the options exactly when one of them names it; normalising neither adds -x nor -n. */
  lemma GivenFlag(args: seq<Opt>, f: Flag)
    requires f == Decrypt || f == NoMemo
    ensures f in Normalise(FlagsGiven(args)) <==> exists i :: 0 <= i < |args| && FlagOf(args[i]) == Some(f)
  {
    if f in Normalise(FlagsGiven(args)) {
      assert f in FlagsGiven(args);
    }
  }

  /** -x sets DECRYPT, and nothing else does. */
  lemma DecryptGiven(args: seq<Opt>)
    ensures Decrypt in Normalise(FlagsGiven(args)) <==> exists i :: 0 <= i < |args| && args[i].KeyLocation?
  {
    GivenFlag(args, Decrypt);
    if exists i :: 0 <= i < |args| && args[i].KeyLocation? {
      var i :| 0 <= i < |args| && args[i].KeyLocation?;
      assert FlagOf(args[i]) == Some(Decrypt);
    }
  }

  /** -n sets NO_MEMO, and nothing else does. */
  lemma NoMemoGiven(args: seq<Opt>)
    ensures NoMemo in Normalise(FlagsGiven(args)) <==> exists i :: 0 <= i < |args| && args[i] == SkipMemo
  {
    GivenFlag(args, NoMemo);
    if exists i :: 0 <= i < |args| && args[i] == SkipMemo {
      var i :| 0 <= i < |args| && args[i] == SkipMemo;
      assert FlagOf(args[i]) == Some(NoMemo);
    }
  }

  /** A plain command line dumps the metadata, the plain schema and all the data, memo included. */
  lemma NoOptions(sfatr: nat)
    requires !HasMask(sfatr, RecordsEncrypted)
    ensures Main([], sfatr) == Some(DumpFile(true, true, Some(PlainFormat), Some(PlainFormat)))
  {
  }

  /** -c alone dumps the data, and only the data, as CSV. */
  lemma CsvAlone(sfatr: nat)
    requires !HasMask(sfatr, RecordsEncrypted)
    ensures Main([Csv], sfatr) == Some(DumpFile(true, false, None, Some(CsvFormat)))
  {
    assert [Csv][..0] == [];
  }

  /** A decryption run uses the key location of the accepted -x. */
  lemma DecryptMode(args: seq<Opt>, sfatr: nat)
    requires HasMask(sfatr, RecordsEncrypted) && Main(args, sfatr).Some? && Main(args, sfatr).value.DecryptFile?
    ensures 1 <= Main(args, sfatr).value.mode <= 4
  {
    ParsedConsistent(args);
  }

  /** The record loop, run on the mask main builds, skips deleted records exactly under -d. */
  lemma SkipsUnderActive(opts: set<Flag>, rh: RecordHeader)
    ensures Records.SkipsRecord(rh, Mask(opts)) <==> HasMask(rh.rhd, RecordDeleted) && DumpActive in opts
  {
    MaskBit(opts, DumpActive);
    BitValues();
  }

  /** The memo column is shown exactly when the file has a memo file and -n was not given. */
  lemma MemoShownUnlessSkipped(opts: set<Flag>, sfatr: nat)
    ensures Records.MemoShown(sfatr, Mask(opts)) <==> HasMask(sfatr, MemoFileExists) && NoMemo !in opts
  {
    MaskBit(opts, NoMemo);
    BitValues();
  }
}
