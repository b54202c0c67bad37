/**
 * What `parseElfSymbols` promises, stated over the model in ElfUtils:
 * which lines give records and in what order, what each record holds,
 * and how the section totals relate to the records' sizes.
 */
module ElfProperties {
  import opened Wrappers
  import opened JsStrings
  import opened JsNumbers
  import opened ElfUtils

  // ---------------------------------------------------------------------
  // The type-code table

  /** The switch is a closed table: nine type codes name a section, every other code (lower-case `w` among them) names none. */
  lemma SectionTable(typeCode: string)
    ensures SectionOf(typeCode) == Some(Text) <==> typeCode == "T" || typeCode == "t"
    ensures SectionOf(typeCode) == Some(Bss) <==> typeCode == "B" || typeCode == "b"
    ensures SectionOf(typeCode) == Some(BssWeak) <==> typeCode == "W"
    ensures SectionOf(typeCode) == Some(Data) <==> typeCode == "D" || typeCode == "d"
    ensures SectionOf(typeCode) == Some(Rodata) <==> typeCode == "R" || typeCode == "r"
    ensures SectionOf(typeCode) == None <==> typeCode !in ["T", "t", "B", "b", "W", "D", "d", "R", "r"]
    ensures SectionOf("w") == None && SectionLabel(SectionOf("w")) == "Unknown"
    ensures SectionLabel(SectionOf("W")) == ".bss (weak)"
  {
  }

  // ---------------------------------------------------------------------
  // Which lines give records, and in what order

  predicate HasRecord(line: string)
  {
    |Fields(line)| >= 4
  }

  /** The positions of the `true` entries of `marks`, in increasing order. */
  function TrueIndices(marks: seq<bool>): (r: seq<nat>)
    ensures forall k :: 0 <= k < |r| ==> r[k] < |marks| && marks[r[k]]
    ensures forall j, k :: 0 <= j < k < |r| ==> r[j] < r[k]
    ensures forall i :: 0 <= i < |marks| && marks[i] ==> i in r
  {
    if marks == [] then []
    else
      var n := |marks| - 1;
      var prev := TrueIndices(marks[..n]);
      if marks[n] then prev + [n] else prev
  }

  /** Which lines have at least four fields. */
  function RecordMarks(lines: seq<string>): (m: seq<bool>)
    ensures |m| == |lines|
  {
    seq(|lines|, i requires 0 <= i < |lines| => HasRecord(lines[i]))
  }

  /** The indices of the lines that have at least four fields, in increasing order. */
  function KeptIndices(lines: seq<string>): (r: seq<nat>)
    ensures forall k :: 0 <= k < |r| ==> r[k] < |lines| && HasRecord(lines[r[k]])
    ensures forall j, k :: 0 <= j < k < |r| ==> r[j] < r[k]
    ensures forall i :: 0 <= i < |lines| && HasRecord(lines[i]) ==> i in r
  {
    var m := RecordMarks(lines);
    assert forall i :: 0 <= i < |lines| ==> m[i] == HasRecord(lines[i]);
    TrueIndices(m)
  }

  /** The kept indices of one more line: the same, and the new line's index if it has at least four fields. */
  lemma KeptIndicesStep(lines: seq<string>)
    requires lines != []
    ensures var n := |lines| - 1;
            KeptIndices(lines) == if HasRecord(lines[n]) then KeptIndices(lines[..n]) + [n] else KeptIndices(lines[..n])
  {
    var n := |lines| - 1;
    assert RecordMarks(lines)[..n] == RecordMarks(lines[..n]);
  }

  /**
   * The records are those of the kept lines, one each, in line order: the
   * `k`-th record is the record of the `k`-th line with at least four fields.
   */
  lemma {:induction false} SymbolsOfKeptLines(lines: seq<string>)
    ensures |Symbols(lines)| == |KeptIndices(lines)|
    ensures forall k :: 0 <= k < |KeptIndices(lines)| ==> LineSymbol(lines[KeptIndices(lines)[k]]) == Some(Symbols(lines)[k])
  {
    if lines != [] {
      var n := |lines| - 1;
      var init := lines[..n];
      SymbolsOfKeptLines(init);
      KeptIndicesStep(lines);
      var idx, syms := KeptIndices(init), Symbols(init);
      if HasRecord(lines[n]) {
        var sym := LineSymbol(lines[n]).value;
        assert KeptIndices(lines) == idx + [n];
        assert Symbols(lines) == syms + [sym];
        forall k | 0 <= k < |idx| ensures LineSymbol(lines[KeptIndices(lines)[k]]) == Some(Symbols(lines)[k]) {
          assert lines[idx[k]] == init[idx[k]];
        }
      } else {
        assert KeptIndices(lines) == idx;
        assert Symbols(lines) == syms;
        forall k | 0 <= k < |idx| ensures LineSymbol(lines[idx[k]]) == Some(syms[k]) {
          assert lines[idx[k]] == init[idx[k]];
        }
      }
    }
  }

  /** Records of earlier lines come first: the parse of two blocks of lines is the parse of each, one after the other. */
  lemma {:induction false} SymbolsAppend(a: seq<string>, b: seq<string>)
    ensures Symbols(a + b) == Symbols(a) + Symbols(b)
  {
    if b == [] {
      assert a + b == a;
    } else {
      var b' := b[..|b| - 1];
      assert (a + b)[..|a + b| - 1] == a + b';
      assert (a + b)[|a + b| - 1] == b[|b| - 1];
      SymbolsAppend(a, b');
    }
  }

  /** A line of whitespace only (the empty line among them) gives no record. */
  lemma BlankLineHasNoRecord(line: string)
    requires AllSpace(line)
    ensures LineSymbol(line) == None
  {
    TrimStartSpec(line);
  }

  /** A line of one, two or three whitespace-separated tokens gives no record. */
  lemma ShortLineHasNoRecord(lead: string, toks: seq<string>, gaps: seq<string>, trail: string)
    requires 1 <= |toks| < 4 && |gaps| == |toks| - 1 && Tokens(toks) && Gaps(gaps)
    requires AllSpace(lead) && AllSpace(trail)
    ensures LineSymbol(lead + Interleave(toks, gaps) + trail) == None
  {
    FieldsOfLine(lead, toks, gaps, trail);
  }

  /**
   * A line of four or more whitespace-separated tokens gives the record
   * built from its first five: address `"0x"` and token 1, size the
   * base-16 value of token 2, section from token 3, name token 4, file
   * location token 5 or `"N/A"`. Tokens after the fifth are ignored.
   */
  lemma RecordOfTokens(lead: string, toks: seq<string>, gaps: seq<string>, trail: string)
    requires |toks| >= 4 && |gaps| == |toks| - 1 && Tokens(toks) && Gaps(gaps)
    requires AllSpace(lead) && AllSpace(trail)
    ensures LineSymbol(lead + Interleave(toks, gaps) + trail)
            == Some(Symbol("0x" + toks[0], ParseIntHex(toks[1]), toks[3],
                           if |toks| > 4 then toks[4] else "N/A", SectionLabel(SectionOf(toks[2]))))
  {
    FieldsOfLine(lead, toks, gaps, trail);
  }

  /** A line of exactly four space-separated fields gives the record of those fields, with location `"N/A"`. */
  lemma FourFieldRecord(address: string, size: string, typeCode: string, name: string)
    requires Tokens([address, size, typeCode, name])
    ensures LineSymbol(address + " " + size + " " + typeCode + " " + name)
            == Some(Symbol("0x" + address, ParseIntHex(size), name, "N/A", SectionLabel(SectionOf(typeCode))))
  {
    var toks := [address, size, typeCode, name];
    var gaps := [" ", " ", " "];
    var line := address + " " + size + " " + typeCode + " " + name;
    assert Interleave(toks[3..], gaps[3..]) == name;
    assert Interleave(toks[2..], gaps[2..]) == typeCode + " " + name;
    assert Interleave(toks[1..], gaps[1..]) == size + " " + typeCode + " " + name;
    assert Interleave(toks, gaps) == line;
    assert "" + line + "" == line;
    RecordOfTokens("", toks, gaps, "");
  }

  /** A line of five fields, the last after a tab as `nm -l` prints it, gives the record of those fields. */
  lemma FiveFieldRecord(address: string, size: string, typeCode: string, name: string, location: string)
    requires Tokens([address, size, typeCode, name, location])
    ensures LineSymbol(address + " " + size + " " + typeCode + " " + name + "\t" + location)
            == Some(Symbol("0x" + address, ParseIntHex(size), name, location, SectionLabel(SectionOf(typeCode))))
  {
    var toks := [address, size, typeCode, name, location];
    var gaps := [" ", " ", " ", "\t"];
    var line := address + " " + size + " " + typeCode + " " + name + "\t" + location;
    assert Interleave(toks[4..], gaps[4..]) == location;
    assert Interleave(toks[3..], gaps[3..]) == name + "\t" + location;
    assert Interleave(toks[2..], gaps[2..]) == typeCode + " " + name + "\t" + location;
    assert Interleave(toks[1..], gaps[1..]) == size + " " + typeCode + " " + name + "\t" + location;
    assert Interleave(toks, gaps) == line;
    assert "" + line + "" == line;
    RecordOfTokens("", toks, gaps, "");
  }

  /**
   * A line as `nm -S -l` prints it, `<address> <size> <type> <name>\t<file:line>`
   * with the size in zero-padded hexadecimal, gives a record whose size is
   * that size, whose `size` text is its decimal form followed by `" (bytes)"`,
   * and whose other fields are the line's.
   */
  lemma NmLineRecord(address: string, zeros: string, n: nat, typeCode: string, name: string, location: string)
    requires forall i :: 0 <= i < |zeros| ==> zeros[i] == '0'
    requires Tokens([address, typeCode, name, location])
    ensures var line := address + " " + zeros + ToHex(n) + " " + typeCode + " " + name + "\t" + location;
            LineSymbol(line).Some?
            && LineSymbol(line).value == Symbol("0x" + address, Num(n), name, location, SectionLabel(SectionOf(typeCode)))
            && LineSymbol(line).value.Size() == DecText(n) + " (bytes)"
  {
    var size := zeros + ToHex(n);
    assert Tokens([address, size, typeCode, name, location]) by {
      HexValueLeadingZeros(zeros, ToHex(n));
      HexNoSpace(size);
      var q := [address, typeCode, name, location];
      assert q[0] != [] && NoSpace(q[0]) && q[1] != [] && NoSpace(q[1]);
      assert q[2] != [] && NoSpace(q[2]) && q[3] != [] && NoSpace(q[3]);
    }
    assert address + " " + zeros + ToHex(n) + " " + typeCode + " " + name + "\t" + location
           == address + " " + size + " " + typeCode + " " + name + "\t" + location;
    FiveFieldRecord(address, size, typeCode, name, location);
    ParseIntHexOfPaddedHex(zeros, n);
  }

  /** Text whose lines hold no line break splits back into those lines, so its records are theirs. */
  lemma SymbolsOfJoinedLines(lines: seq<string>)
    requires |lines| >= 1
    requires forall k :: 0 <= k < |lines| ==> '\n' !in lines[k]
    ensures Symbols(Split(Join(lines, '\n'), '\n')) == Symbols(lines)
  {
    JoinSplit(lines, '\n');
  }

  // ---------------------------------------------------------------------
  // Sums of sizes

  /** The records among `symbols` that name no section (`"Unknown"`). */
  function Unlabelled(symbols: seq<Symbol>): (r: seq<Symbol>)
    ensures forall k :: 0 <= k < |r| ==> BucketOfLabel(r[k].section) == None
    ensures forall x :: x in r ==> x in symbols
    ensures forall k :: 0 <= k < |symbols| && BucketOfLabel(symbols[k].section) == None ==> symbols[k] in r
    ensures forall x {:trigger multiset(r)[x]} :: multiset(r)[x] == if BucketOfLabel(x.section) == None then multiset(symbols)[x] else 0
  {
    if symbols == [] then []
    else
      var n := |symbols| - 1;
      var prev := Unlabelled(symbols[..n]);
      var sym := symbols[n];
      var r := if BucketOfLabel(sym.section) == None then prev + [sym] else prev;
      assert symbols == symbols[..n] + [sym];
      UnlabelledStep(prev, symbols[..n], sym);
      r
  }

  /** One step of `Unlabelled`: appending `sym` to the input appends it to the result exactly when `sym` has no bucket, keeping the contract. */
  lemma UnlabelledStep(prev: seq<Symbol>, symbols: seq<Symbol>, sym: Symbol)
    requires forall k :: 0 <= k < |prev| ==> BucketOfLabel(prev[k].section) == None
    requires forall x :: x in prev ==> x in symbols
    requires forall k :: 0 <= k < |symbols| && BucketOfLabel(symbols[k].section) == None ==> symbols[k] in prev
    requires forall x {:trigger multiset(prev)[x]} :: multiset(prev)[x] == if BucketOfLabel(x.section) == None then multiset(symbols)[x] else 0
    ensures var r := if BucketOfLabel(sym.section) == None then prev + [sym] else prev;
      && (forall k :: 0 <= k < |r| ==> BucketOfLabel(r[k].section) == None)
      && (forall x :: x in r ==> x in symbols + [sym])
      && (forall k :: 0 <= k < |symbols + [sym]| && BucketOfLabel((symbols + [sym])[k].section) == None ==> (symbols + [sym])[k] in r)
      && (forall x {:trigger multiset(r)[x]} :: multiset(r)[x] == if BucketOfLabel(x.section) == None then multiset(symbols + [sym])[x] else 0)
  {
    var s := symbols + [sym];
    assert forall k :: 0 <= k < |symbols| ==> s[k] == symbols[k];
  }

  lemma {:induction false} SumSizesAppend(s: seq<Symbol>, t: seq<Symbol>)
    ensures SumSizes(s + t) == Plus(SumSizes(s), SumSizes(t))
  {
    if t == [] {
      assert s + t == s;
    } else {
      var t' := t[..|t| - 1];
      assert (s + t)[..|s + t| - 1] == s + t';
      assert (s + t)[|s + t| - 1] == t[|t| - 1];
      SumSizesAppend(s, t');
      PlusLaws(SumSizes(s), SumSizes(t'), t[|t| - 1].sizeInBytes);
    }
  }

  lemma {:induction false} InBucketAppend(s: seq<Symbol>, t: seq<Symbol>, b: Bucket)
    ensures InBucket(s + t, b) == InBucket(s, b) + InBucket(t, b)
  {
    if t == [] {
      assert s + t == s;
    } else {
      var t' := t[..|t| - 1];
      assert (s + t)[..|s + t| - 1] == s + t';
      assert (s + t)[|s + t| - 1] == t[|t| - 1];
      InBucketAppend(s, t', b);
    }
  }

  /** A sum of sizes is `NaN` exactly when one of the sizes is `NaN`. */
  lemma {:induction false} SumSizesNaN(s: seq<Symbol>)
    ensures SumSizes(s).NaN? <==> exists k :: 0 <= k < |s| && s[k].sizeInBytes.NaN?
  {
    if s != [] {
      var s' := s[..|s| - 1];
      SumSizesNaN(s');
      assert forall k :: 0 <= k < |s'| ==> s'[k] == s[k];
      if s[|s| - 1].sizeInBytes.NaN? {
        // The last record is the witness `k := |s| - 1` of the `exists`.
        assert s[|s| - 1].sizeInBytes.NaN?;
      }
    }
  }

  /** A sum of non-negative integer sizes is a non-negative integer, at least each of its parts. */
  lemma {:induction false} SumSizesNatural(s: seq<Symbol>)
    requires forall k :: 0 <= k < |s| ==> IsNatural(s[k].sizeInBytes)
    ensures IsNatural(SumSizes(s))
    ensures forall k :: 0 <= k < |s| ==> IsNatural(s[k].sizeInBytes) && s[k].sizeInBytes.value <= SumSizes(s).value
  {
    if s != [] {
      var s' := s[..|s| - 1];
      assert forall k :: 0 <= k < |s'| ==> s'[k] == s[k];
      SumSizesNatural(s');
    }
  }

  /**
   * The sum of a list of numbers, adding from the first on, starting at `0`.
   * It is the fold of `SumSizes` over bare numbers: the partition below adds
   * six group sums that are not the sizes of any one list of records.
   */
  function SumAll(parts: seq<JsNumber>): JsNumber
  {
    if parts == [] then Num(0) else Plus(SumAll(parts[..|parts| - 1]), parts[|parts| - 1])
  }

  lemma {:induction false} SumAllZeros(parts: seq<JsNumber>)
    requires forall k :: 0 <= k < |parts| ==> parts[k] == Num(0)
    ensures SumAll(parts) == Num(0)
  {
    if parts != [] {
      SumAllZeros(parts[..|parts| - 1]);
    }
  }

  /** Adding `x` to one of the numbers adds `x` to their sum. */
  lemma {:induction false} SumAllUpdate(parts: seq<JsNumber>, q: seq<JsNumber>, j: nat, x: JsNumber)
    requires j < |parts| == |q|
    requires forall k :: 0 <= k < |q| ==> q[k] == if k == j then Plus(parts[k], x) else parts[k]
    ensures SumAll(q) == Plus(SumAll(parts), x)
  {
    var n := |parts|;
    if j < n - 1 {
      SumAllUpdate(parts[..n - 1], q[..n - 1], j, x);
    } else {
      assert q[..n - 1] == parts[..n - 1];
    }
  }

  /** The six groups of records: the five buckets in the order of the `sectionSizes` fields, then no section. */
  function GroupAt(k: nat): Option<Bucket>
    requires k < 6
  {
    [Some(Text), Some(Bss), Some(BssWeak), Some(Data), Some(Rodata), None][k]
  }

  /** Where a record goes: the position of its group among the six. */
  function GroupIndex(bucket: Option<Bucket>): (j: nat)
    ensures j < 6 && GroupAt(j) == bucket
    ensures forall k :: 0 <= k < 6 && GroupAt(k) == bucket ==> k == j
  {
    match bucket
    case Some(Text) => 0
    case Some(Bss) => 1
    case Some(BssWeak) => 2
    case Some(Data) => 3
    case Some(Rodata) => 4
    case None => 5
  }

  /** The records of a group: those of bucket `g`, or those of no section when `g` is `None`. */
  function Group(s: seq<Symbol>, g: Option<Bucket>): seq<Symbol>
  {
    match g
    case Some(b) => InBucket(s, b)
    case None => Unlabelled(s)
  }

  /** The sums of the sizes of the six groups, in order. */
  function Parts(s: seq<Symbol>): (r: seq<JsNumber>)
    ensures |r| == 6
  {
    seq(6, k requires 0 <= k < 6 => SumSizes(Group(s, GroupAt(k))))
  }

  /** Adding a record to a group adds its size to that group's sum. */
  lemma SumSizesSnoc(x: seq<Symbol>, sym: Symbol)
    ensures SumSizes(x + [sym]) == Plus(SumSizes(x), sym.sizeInBytes)
  {
    assert (x + [sym])[..|x|] == x;
  }

  /** A record added at the end adds its size to the sum of its own group and leaves the others as they were. */
  lemma GroupSnocSum(s: seq<Symbol>, sym: Symbol, g: Option<Bucket>)
    ensures SumSizes(Group(s + [sym], g))
            == if BucketOfLabel(sym.section) == g then Plus(SumSizes(Group(s, g)), sym.sizeInBytes) else SumSizes(Group(s, g))
  {
    assert (s + [sym])[..|s|] == s;
    SumSizesSnoc(Group(s, g), sym);
  }

  /** Adding a record adds its size to the sum of its own group and to no other. */
  lemma PartsSnoc(s: seq<Symbol>, sym: Symbol)
    ensures forall k :: 0 <= k < 6 ==>
              Parts(s + [sym])[k] == if k == GroupIndex(BucketOfLabel(sym.section))
                                     then Plus(Parts(s)[k], sym.sizeInBytes) else Parts(s)[k]
  {
    var j := GroupIndex(BucketOfLabel(sym.section));
    forall k | 0 <= k < 6
      ensures Parts(s + [sym])[k] == if k == j then Plus(Parts(s)[k], sym.sizeInBytes) else Parts(s)[k]
    {
      GroupSnocSum(s, sym, GroupAt(k));
    }
  }

  /**
   * The five totals and the records named `"Unknown"` account for every
   * record exactly once: the sizes of all records add up to the five
   * totals plus the sizes of the records of no section.
   */
  lemma {:induction false} BucketsPartition(s: seq<Symbol>)
    ensures SumSizes(s) == SumAll(Parts(s))
  {
    if s != [] {
      var s', sym := s[..|s| - 1], s[|s| - 1];
      assert s == s' + [sym];
      BucketsPartition(s');
      PartsSnoc(s', sym);
      SumAllUpdate(Parts(s'), Parts(s), GroupIndex(BucketOfLabel(sym.section)), sym.sizeInBytes);
    } else {
      SumAllZeros(Parts(s));
    }
  }

  // ---------------------------------------------------------------------
  // The totals of a parse

  /** Every line with at least four fields has a size field of hexadecimal digits only. */
  predicate WellFormedSizes(lines: seq<string>)
  {
    forall i :: 0 <= i < |lines| && HasRecord(lines[i]) ==> Fields(lines[i])[1] != [] && AllHex(Fields(lines[i])[1])
  }

  /** On well-formed lines every record's size is a non-negative integer, the value of its hexadecimal field. */
  lemma WellFormedSizesNatural(lines: seq<string>)
    requires WellFormedSizes(lines)
    ensures forall k :: 0 <= k < |Symbols(lines)| ==> IsNatural(Symbols(lines)[k].sizeInBytes)
  {
    SymbolsOfKeptLines(lines);
    var idx := KeptIndices(lines);
    forall k | 0 <= k < |Symbols(lines)| ensures IsNatural(Symbols(lines)[k].sizeInBytes) {
      var parts := Fields(lines[idx[k]]);
      ParseIntHexOfDigits(parts[1]);
    }
  }

  lemma InBucketNatural(s: seq<Symbol>, b: Bucket)
    requires forall k :: 0 <= k < |s| ==> IsNatural(s[k].sizeInBytes)
    ensures forall k :: 0 <= k < |InBucket(s, b)| ==> IsNatural(InBucket(s, b)[k].sizeInBytes)
  {
    if s != [] {
      var s' := s[..|s| - 1];
      assert forall k :: 0 <= k < |s'| ==> s'[k] == s[k];
      InBucketNatural(s', b);
    }
  }

  /** On well-formed lines every total is a non-negative integer. */
  lemma TotalsNatural(lines: seq<string>, b: Bucket)
    requires WellFormedSizes(lines)
    ensures IsNatural(SumSizes(InBucket(Symbols(lines), b)))
  {
    WellFormedSizesNatural(lines);
    InBucketNatural(Symbols(lines), b);
    SumSizesNatural(InBucket(Symbols(lines), b));
  }

  /** On well-formed lines the totals never decrease: more lines can only add to each total. */
  lemma TotalsGrow(lines: seq<string>, more: seq<string>, b: Bucket)
    requires WellFormedSizes(lines + more)
    ensures IsNatural(SumSizes(InBucket(Symbols(lines), b))) && IsNatural(SumSizes(InBucket(Symbols(lines + more), b)))
    ensures SumSizes(InBucket(Symbols(lines), b)).value <= SumSizes(InBucket(Symbols(lines + more), b)).value
  {
    var all := lines + more;
    assert WellFormedSizes(lines) by {
      assert forall i :: 0 <= i < |lines| ==> all[i] == lines[i];
    }
    assert WellFormedSizes(more) by {
      assert forall i :: 0 <= i < |more| ==> all[|lines| + i] == more[i];
    }
    SymbolsAppend(lines, more);
    InBucketAppend(Symbols(lines), Symbols(more), b);
    SumSizesAppend(InBucket(Symbols(lines), b), InBucket(Symbols(more), b));
    TotalsNatural(lines, b);
    TotalsNatural(more, b);
  }

  /**
   * One more line changes at most one total's records: its record joins the
   * records of its section's bucket, and every other bucket (all five, when
   * the line has no record or its type code names no section) is unchanged.
   */
  lemma LineTouchesOneBucket(lines: seq<string>, line: string, b: Bucket)
    ensures InBucket(Symbols(lines + [line]), b)
            == if LineSymbol(line).Some? && BucketOfLabel(LineSymbol(line).value.section) == Some(b)
               then InBucket(Symbols(lines), b) + [LineSymbol(line).value]
               else InBucket(Symbols(lines), b)
  {
    var t := lines + [line];
    assert t[..|lines|] == lines;
    if LineSymbol(line).Some? {
      var sym := LineSymbol(line).value;
      assert Symbols(t) == Symbols(lines) + [sym];
      assert (Symbols(lines) + [sym])[..|Symbols(lines)|] == Symbols(lines);
    }
  }

  /**
   * A size field that `parseInt` cannot read (`NaN`) on a line of a
   * section poisons that section's total: it is `NaN` from then on.
   */
  lemma NaNSizePoisonsTotal(lines: seq<string>, i: nat, b: Bucket)
    requires i < |lines| && HasRecord(lines[i])
    requires SectionOf(Fields(lines[i])[2]) == Some(b)
    requires ParseIntHex(Fields(lines[i])[1]) == NaN
    ensures SumSizes(InBucket(Symbols(lines), b)) == NaN
  {
    var a, rest := lines[..i + 1], lines[i + 1..];
    assert lines == a + rest;
    SymbolsAppend(a, rest);
    assert a[..i] == lines[..i];
    var sym := LineSymbol(lines[i]).value;
    assert Symbols(a) == Symbols(lines[..i]) + [sym];
    InBucketAppend(Symbols(lines[..i]), [sym], b);
    InBucketAppend(Symbols(a), Symbols(rest), b);
    var ib := InBucket(Symbols(lines), b);
    var k := |InBucket(Symbols(lines[..i]), b)|;
    assert ib[k] == sym;
    SumSizesNaN(ib);
  }

  // ---------------------------------------------------------------------
  // Example lines
  //
  // Each example takes the fields of its line as parameters fixed by its
  // `requires`, rather than the whole line as one literal: on a literal the
  // solver would unfold every definition on the string character by character.

  /** A one-line listing whose record is labelled with bucket `b` has that record's size as `b`'s total. */
  lemma OneLineTotal(line: string, sym: Symbol, b: Bucket)
    requires LineSymbol(line) == Some(sym)
    requires BucketOfLabel(sym.section) == Some(b)
    ensures SumSizes(InBucket(Symbols([line]), b)) == sym.sizeInBytes
  {
    assert [line][..0] == [];
    assert Symbols([line]) == [sym];
    assert [sym][..0] == [];
    assert InBucket([sym], b) == [sym];
  }

  lemma MainSize(d: string)
    requires d == "00000010"
    ensures ParseIntHex(d) == Num(16)
  {
    assert d == "000000" + ToHex(16);
    ParseIntHexOfPaddedHex("000000", 16);
  }

  /** `00000100 00000010 T main` is a 16-byte `.text` record with no file location. */
  lemma MainLineExample(address: string, size: string, typeCode: string, name: string)
    requires address == "00000100" && size == "00000010" && typeCode == "T" && name == "main"
    ensures LineSymbol(address + " " + size + " " + typeCode + " " + name)
            == Some(Symbol("0x00000100", Num(16), "main", "N/A", ".text"))
  {
    assert Tokens([address, size, typeCode, name]) by {
      HexNoSpace(address);
      HexNoSpace(size);
    }
    FourFieldRecord(address, size, typeCode, name);
    MainSize(size);
    assert "0x" + address == "0x00000100";
    assert SectionLabel(SectionOf(typeCode)) == ".text";
  }

  /** A listing of that one line has a `.text` total of 16 bytes. */
  lemma MainLineTotal(address: string, size: string, typeCode: string, name: string)
    requires address == "00000100" && size == "00000010" && typeCode == "T" && name == "main"
    ensures SumSizes(InBucket(Symbols([address + " " + size + " " + typeCode + " " + name]), Text)) == Num(16)
  {
    var line := address + " " + size + " " + typeCode + " " + name;
    MainLineExample(address, size, typeCode, name);
    OneLineTotal(line, LineSymbol(line).value, Text);
  }

  /** A size column `parseInt` cannot read makes the record's size `NaN`. */
  lemma MalformedSizeExample(address: string, size: string, typeCode: string, name: string)
    requires address == "00000100" && size == "zz" && typeCode == "T" && name == "main"
    ensures LineSymbol(address + " " + size + " " + typeCode + " " + name)
            == Some(Symbol("0x00000100", NaN, "main", "N/A", ".text"))
  {
    assert Tokens([address, size, typeCode, name]) by {
      HexNoSpace(address);
    }
    FourFieldRecord(address, size, typeCode, name);
    assert ParseIntHex(size) == NaN by {
      assert TrimStart(size) == size;
      assert HexSpan(size) == 0;
    }
    assert "0x" + address == "0x00000100";
    assert SectionLabel(SectionOf(typeCode)) == ".text";
  }

  /** ... and makes the `.text` total of a listing of that line `NaN` too. */
  lemma MalformedSizeTotal(address: string, size: string, typeCode: string, name: string)
    requires address == "00000100" && size == "zz" && typeCode == "T" && name == "main"
    ensures SumSizes(InBucket(Symbols([address + " " + size + " " + typeCode + " " + name]), Text)) == NaN
  {
    var line := address + " " + size + " " + typeCode + " " + name;
    MalformedSizeExample(address, size, typeCode, name);
    OneLineTotal(line, LineSymbol(line).value, Text);
  }
}
