/**
 * `parseElfSymbols` of ELFInsight: turns the text printed by
 * `arm-none-eabi-nm -S -l` into symbol records and five per-section size
 * totals. One line of that text reads
 *   `<address> <size in hex> <type code> <name> [<file:line>]`.
 */
module ElfUtils {
  import opened Wrappers
  import opened JsStrings
  import opened JsNumbers

  /** The five section totals that `parseElfSymbols` keeps. */
  datatype Bucket = Text | Bss | BssWeak | Data | Rodata

  /**
   * The `switch (typeCode)` of `parseElfSymbols`: the bucket a type code
   * adds to, or `None` for the `default` case, which adds to none. Only
   * upper-case `W` has a bucket of its own; lower-case `w` is a default.
   */
  function SectionOf(typeCode: string): Option<Bucket>
  {
    if typeCode == "T" || typeCode == "t" then Some(Text)
    else if typeCode == "B" || typeCode == "b" then Some(Bss)
    else if typeCode == "W" then Some(BssWeak)
    else if typeCode == "D" || typeCode == "d" then Some(Data)
    else if typeCode == "R" || typeCode == "r" then Some(Rodata)
    else None
  }

  /** The bucket a record's `section` label stands for; `None` for `"Unknown"` and any other text. */
  function BucketOfLabel(section: string): Option<Bucket>
  {
    if section == ".text" then Some(Text)
    else if section == ".bss" then Some(Bss)
    else if section == ".bss (weak)" then Some(BssWeak)
    else if section == ".data" then Some(Data)
    else if section == ".rodata" then Some(Rodata)
    else None
  }

  /** The `section` label the switch gives a record; distinct labels for distinct buckets. */
  function SectionLabel(bucket: Option<Bucket>): (section: string)
    ensures BucketOfLabel(section) == bucket
  {
    match bucket
    case Some(Text) => ".text"
    case Some(Bss) => ".bss"
    case Some(BssWeak) => ".bss (weak)"
    case Some(Data) => ".data"
    case Some(Rodata) => ".rodata"
    case None => "Unknown"
  }

  /** One symbol record as `parseElfSymbols` returns it (the type code is not kept). */
  datatype Symbol = Symbol(address: string, sizeInBytes: JsNumber, name: string, fileLocation: string, section: string)
  {
    /** The record's `size` property: the decimal size followed by `" (bytes)"`. */
    function Size(): string
    {
      NumberText(sizeInBytes) + " (bytes)"
    }
  }

  /** The `lines.map` callback: the record for one line, or `None` (`null`) for a line of fewer than four fields. */
  function LineSymbol(line: string): (r: Option<Symbol>)
    ensures r.None? <==> |Fields(line)| < 4
  {
    var parts := Fields(line);
    if |parts| >= 4 then
      var section := SectionOf(parts[2]);
      Some(Symbol("0x" + parts[0], ParseIntHex(parts[1]), parts[3],
                  if |parts| > 4 then parts[4] else "N/A", SectionLabel(section)))
    else None
  }

  /** `lines.map(...).filter(symbol => symbol !== null)`: the records of the lines that have one, in line order. */
  function Symbols(lines: seq<string>): seq<Symbol>
  {
    if lines == [] then []
    else
      var prev := Symbols(lines[..|lines| - 1]);
      match LineSymbol(lines[|lines| - 1])
      case None => prev
      case Some(sym) => prev + [sym]
  }

  /** The records whose section label is that of bucket `b`, in order. */
  function InBucket(symbols: seq<Symbol>, b: Bucket): (r: seq<Symbol>)
    ensures |r| <= |symbols|
    ensures forall k :: 0 <= k < |r| ==> r[k].section == SectionLabel(Some(b))
    ensures forall x :: x in r ==> x in symbols
    ensures forall k :: 0 <= k < |symbols| && BucketOfLabel(symbols[k].section) == Some(b) ==> symbols[k] in r
    ensures forall x {:trigger multiset(r)[x]} :: multiset(r)[x] == if BucketOfLabel(x.section) == Some(b) then multiset(symbols)[x] else 0
  {
    if symbols == [] then []
    else
      var n := |symbols| - 1;
      var prev := InBucket(symbols[..n], b);
      var sym := symbols[n];
      var r := if BucketOfLabel(sym.section) == Some(b) then prev + [sym] else prev;
      assert symbols == symbols[..n] + [sym];
      InBucketStep(prev, symbols[..n], sym, b);
      r
  }

  /** One step of `InBucket`: appending `sym` to the input appends it to the result exactly when `sym` is in bucket `b`, keeping the contract. */
  lemma InBucketStep(prev: seq<Symbol>, symbols: seq<Symbol>, sym: Symbol, b: Bucket)
    requires forall k :: 0 <= k < |prev| ==> prev[k].section == SectionLabel(Some(b))
    requires forall x :: x in prev ==> x in symbols
    requires forall k :: 0 <= k < |symbols| && BucketOfLabel(symbols[k].section) == Some(b) ==> symbols[k] in prev
    requires forall x {:trigger multiset(prev)[x]} :: multiset(prev)[x] == if BucketOfLabel(x.section) == Some(b) then multiset(symbols)[x] else 0
    ensures var r := if BucketOfLabel(sym.section) == Some(b) then prev + [sym] else prev;
      && (forall k :: 0 <= k < |r| ==> r[k].section == SectionLabel(Some(b)))
      && (forall x :: x in r ==> x in symbols + [sym])
      && (forall k :: 0 <= k < |symbols + [sym]| && BucketOfLabel((symbols + [sym])[k].section) == Some(b) ==> (symbols + [sym])[k] in r)
      && (forall x {:trigger multiset(r)[x]} :: multiset(r)[x] == if BucketOfLabel(x.section) == Some(b) then multiset(symbols + [sym])[x] else 0)
  {
    var s := symbols + [sym];
    assert forall k :: 0 <= k < |symbols| ==> s[k] == symbols[k];
  }

  /** The sum of the records' sizes, adding from the first record on, starting at `0` as the totals do. */
  function SumSizes(symbols: seq<Symbol>): JsNumber
  {
    if symbols == [] then Num(0)
    else Plus(SumSizes(symbols[..|symbols| - 1]), symbols[|symbols| - 1].sizeInBytes)
  }

  /** The `sectionSizes` object as a value. */
  datatype SectionTotals = SectionTotals(text: JsNumber, bss: JsNumber, bssWeak: JsNumber, data: JsNumber, rodata: JsNumber)
  {
    function Get(b: Bucket): JsNumber
    {
      match b
      case Text => text
      case Bss => bss
      case BssWeak => bssWeak
      case Data => data
      case Rodata => rodata
    }
  }

  /** What each total should be: the sum of the sizes of the records labelled with its section. */
  ghost predicate SumsOfBuckets(totals: SectionTotals, symbols: seq<Symbol>)
  {
    forall b :: totals.Get(b) == SumSizes(InBucket(symbols, b))
  }

  /** The mutable `sectionSizes` accumulator. */
  class SectionSizes {
    var text: JsNumber
    var bss: JsNumber
    var bssWeak: JsNumber
    var data: JsNumber
    var rodata: JsNumber

    /** All five totals start at `0`. */
    constructor ()
      ensures forall b :: Value().Get(b) == Num(0)
    {
      text, bss, bssWeak, data, rodata := Num(0), Num(0), Num(0), Num(0), Num(0);
    }

    function Value(): SectionTotals
      reads this
    {
      SectionTotals(text, bss, bssWeak, data, rodata)
    }

    /** `sectionSizes.<b> += size`: one total grows by `size`, the other four do not change. */
    method Add(b: Bucket, size: JsNumber)
      modifies this
      ensures Value().Get(b) == Plus(old(Value()).Get(b), size)
      ensures forall c :: c != b ==> Value().Get(c) == old(Value()).Get(c)
    {
      match b
      case Text => text := Plus(text, size);
      case Bss => bss := Plus(bss, size);
      case BssWeak => bssWeak := Plus(bssWeak, size);
      case Data => data := Plus(data, size);
      case Rodata => rodata := Plus(rodata, size);
    }
  }

  /** The records of one more line: one more record if the line has one, else the same records. */
  lemma {:induction false} SymbolsStep(lines: seq<string>, i: nat)
    requires i < |lines|
    ensures LineSymbol(lines[i]).None? ==> Symbols(lines[..i + 1]) == Symbols(lines[..i])
    ensures LineSymbol(lines[i]).Some? ==> Symbols(lines[..i + 1]) == Symbols(lines[..i]) + [LineSymbol(lines[i]).value]
  {
    assert lines[..i + 1][..i] == lines[..i];
    assert lines[..i + 1][i] == lines[i];
  }

  /** Adding a record's size to the total of its bucket, if it has one, keeps every total the sum of its bucket. */
  lemma {:induction false} SumsOfBucketsStep(before: SectionTotals, after: SectionTotals, symbols: seq<Symbol>, sym: Symbol)
    requires SumsOfBuckets(before, symbols)
    requires forall b :: after.Get(b) == if BucketOfLabel(sym.section) == Some(b)
                                         then Plus(before.Get(b), sym.sizeInBytes) else before.Get(b)
    ensures SumsOfBuckets(after, symbols + [sym])
  {
    var s := symbols + [sym];
    assert s[..|symbols|] == symbols;
    forall b ensures after.Get(b) == SumSizes(InBucket(s, b)) {
      if BucketOfLabel(sym.section) == Some(b) {
        var ib := InBucket(symbols, b) + [sym];
        assert InBucket(s, b) == ib;
        assert ib[..|ib| - 1] == InBucket(symbols, b);
      }
    }
  }

  /**
   * The `lines.map` callback: the record of one line, or `None` (`null`)
   * for a line of fewer than four fields. Its size is added to the total
   * of its section, if the type code names one; no other total changes.
   */
  method ParseLine(line: string, sizes: SectionSizes) returns (r: Option<Symbol>)
    modifies sizes
    ensures r == LineSymbol(line)
    ensures forall b :: sizes.Value().Get(b)
                        == if r.Some? && BucketOfLabel(r.value.section) == Some(b)
                           then Plus(old(sizes.Value()).Get(b), r.value.sizeInBytes)
                           else old(sizes.Value()).Get(b)
  {
    var parts := Fields(line);
    if |parts| >= 4 {
      var sizeInBytes := ParseIntHex(parts[1]);
      var section := SectionOf(parts[2]);
      if section.Some? {
        sizes.Add(section.value, sizeInBytes);
      }
      r := Some(Symbol("0x" + parts[0], sizeInBytes, parts[3],
                       if |parts| > 4 then parts[4] else "N/A", SectionLabel(section)));
    } else {
      r := None;
    }
  }

  /**
   * `parseElfSymbols(output)`: the records of the lines of `output` that
   * have at least four fields, in line order, and the section totals, each
   * the sum of the sizes of the records labelled with its section. The
   * totals are returned instead of being posted to the webview.
   */
  method ParseElfSymbols(output: string) returns (symbols: seq<Symbol>, sectionSizes: SectionTotals)
    ensures symbols == Symbols(Split(output, '\n'))
    ensures forall b :: sectionSizes.Get(b) == SumSizes(InBucket(symbols, b))
  {
    var lines := Split(output, '\n');
    var sizes := new SectionSizes();
    symbols := [];
    var i := 0;
    assert lines[..0] == [];
    while i < |lines|
      invariant 0 <= i <= |lines|
      invariant symbols == Symbols(lines[..i])
      invariant SumsOfBuckets(sizes.Value(), symbols)
    {
      ghost var before := sizes.Value();
      var r := ParseLine(lines[i], sizes);
      SymbolsStep(lines, i);
      if r.Some? {
        SumsOfBucketsStep(before, sizes.Value(), symbols, r.value);
        symbols := symbols + [r.value];
      }
      i := i + 1;
    }
    assert lines[..i] == lines;
    sectionSizes := sizes.Value();
  }
}
