# ELFInsight `parseElfSymbols` in Dafny

ELFInsight is a VS Code extension that runs `arm-none-eabi-nm -S -l` on an
ELF file. Its function `parseElfSymbols` turns the printed listing into a
list of symbol records and five per-section size totals: `.text`, `.bss`,
`.bss (weak)`, `.data` and `.rodata`. Each line of the listing reads
`<address> <size in hex> <type code> <name> [<file:line>]`.

This project models `parseElfSymbols` and the JavaScript operations it
relies on, and proves what it computes. The function appears twice in the
repository: as TypeScript in `assets/elfUtils.ts` and compiled to
JavaScript in `assets/elfUtils.js`. The two bodies agree line for line, so
both are cited against the same model.

- `js_strings.dfy` (`JsStrings`) models the string operations:
  - `split('\n')` is `Split`;
  - `trim()` is `Trim`;
  - `split(/\s+/)` is `SplitSpaces`.

  White space is the exact ECMAScript WhiteSpace and LineTerminator set,
  which `trim` and `\s` share.
- `js_numbers.dfy` (`JsNumbers`) models the number operations:
  - `parseInt(s, 16)` as ECMAScript defines it: leading white space, an
    optional sign, an optional `0x`/`0X`, then the longest run of hex
    digits, or `NaN` when that run is empty;
  - `+=` on numbers that may be `NaN`;
  - the decimal text of a number inside a template literal.
- `elf_utils.dfy` (`ElfUtils`) models the function itself:
  - the type-code `switch`, as `SectionOf` and `SectionLabel`;
  - the per-line callback, as the function `LineSymbol` and the method
    `ParseLine`;
  - the mutable `sectionSizes` object, as the class `SectionSizes`;
  - `parseElfSymbols` itself, as the method `ParseElfSymbols`. It loops
    over the lines, updating `SectionSizes` in place, and is proved
    against the specification functions `Symbols`, `InBucket` and
    `SumSizes`.
- `elf_properties.dfy` (`ElfProperties`) holds the lemmas about the model.

The type-code table follows the code. Upper-case `W` adds to the
`bssWeak` total and labels the record `.bss (weak)`. Lower-case `w`, like
every other code outside the nine listed, labels the record `Unknown` and
adds to no total.

A record keeps the parsed size as a number, `sizeInBytes`. The record's
`size` text is `Symbol.Size()`: that number's decimal text followed by
`" (bytes)"`.

## Model

| member | source | states |
|---|---|---|
| ElfUtils.SectionOf | assets/elfUtils.ts:69-96 | Definition of the type-code `switch`: the bucket a code adds to, or none for the `default` case. Its properties are stated by `ElfProperties.SectionTable`. |
| ElfUtils.Symbols | assets/elfUtils.ts:61-108 | Definition of `lines.map(...).filter(...)` as a fold over the lines. Its properties are stated by `ElfProperties.SymbolsOfKeptLines`, `ElfProperties.SymbolsAppend` and `ElfProperties.LineTouchesOneBucket`. |
| ElfUtils.SumSizes | assets/elfUtils.js:93-112 | Definition of the `+=` accumulation over a list of records, from 0 in record order. Its properties are stated by `ElfProperties.SumSizesNaN`, `ElfProperties.SumSizesNatural` and `ElfProperties.BucketsPartition`. |
| ElfUtils.Symbol.Size | assets/elfUtils.ts:101 | Definition of the template literal that gives a record's `size`: the number's text followed by `" (bytes)"`. Its properties are stated by `JsNumbers.NumberText` and `ElfProperties.NmLineRecord`. |
| JsNumbers.ParseIntHex | assets/elfUtils.ts:64 | Definition of `parseInt(s, 16)`. Its properties are stated by `JsNumbers.ParseIntHexOfDigits`, `JsNumbers.ParseIntHexIgnoresTail`, `JsNumbers.ParseIntHexOfNonHex` and `JsNumbers.ParseIntHexOfPaddedHex`. |
| JsStrings.Split | assets/elfUtils.ts:52 | Definition of `split('\n')`. Its properties are stated by `JsStrings.SplitJoin`, `JsStrings.JoinSplit` and `JsStrings.SplitPiecesFree`. |
| JsStrings.Trim | assets/elfUtils.ts:62 | Definition of `trim()`. Its properties are stated by `JsStrings.TrimStartSpec`, `JsStrings.TrimEndSpec`, `JsStrings.TrimTrimmed` and `JsStrings.TrimPadded`. |
| JsStrings.SplitSpaces | assets/elfUtils.js:83 | Definition of `split(/\s+/)`. Its properties are stated by `JsStrings.SplitSpacesNoSpace`, `JsStrings.SplitSpacesNonEmpty`, `JsStrings.SplitSpacesStrip` and `JsStrings.SplitSpacesInterleave`. |
| JsStrings.Fields | assets/elfUtils.js:83-84 | Definition of `line.trim().split(/\s+/)`. Its properties are stated by `JsStrings.FieldsOfLine` and `ElfProperties.BlankLineHasNoRecord`. |
| ElfUtils.ParseElfSymbols | assets/elfUtils.ts:51-117 | The returned records are the records of the lines of `output` split at `'\n'`, in line order. Each of the five returned totals equals the sum of the sizes of the records labelled with its section, summed from the first record on and starting at 0. The loop keeps that equality after every line. |
| ElfUtils.ParseLine | assets/elfUtils.ts:61-107 | The callback returns `null` (`None`) exactly for lines of fewer than four fields, and otherwise the record of the line. Only the total of the record's own section grows, by the record's size. For a `null` line or an `Unknown` record, no total changes. |
| ElfUtils.SectionSizes.constructor | assets/elfUtils.ts:53-59 | All five totals start at 0. |
| ElfUtils.SectionSizes.Add | assets/elfUtils.js:93-112 | `sectionSizes.<bucket> += size`: that one total becomes the JavaScript sum of its old value and `size`, and the other four are unchanged. |
| ElfUtils.LineSymbol | assets/elfUtils.js:82-127 | A line gives no record exactly when its trimmed, whitespace-split fields number fewer than four. |
| ElfUtils.SectionLabel | assets/elfUtils.ts:66-96 | The six section labels are pairwise distinct, and each maps back to the bucket it was given for. |
| ElfUtils.InBucket | assets/elfUtils.js:89-116 | The records of one bucket are exactly the records labelled with its section: each returned record comes from the input and carries that label, and every input record with that label is returned. Each such record occurs in the result exactly as often as in the input, and no other record occurs in it. |
| ElfProperties.SectionTable | assets/elfUtils.ts:69-96 | `T`/`t` maps to `.text`, `B`/`b` to `.bss`, `W` alone to `.bss (weak)`, `D`/`d` to `.data` and `R`/`r` to `.rodata`, each in both directions. Every other code, lower-case `w` included, maps to no bucket and is labelled `Unknown`. |
| ElfProperties.KeptIndices | assets/elfUtils.ts:63 | The kept line indices are strictly increasing. They are in range, each has at least four fields, and every line with at least four fields is among them. |
| ElfProperties.SymbolsOfKeptLines | assets/elfUtils.ts:61-108 | There are exactly as many records as lines with at least four fields. Record `k` is the record of the `k`-th such line, so the filter keeps line order. |
| ElfProperties.SymbolsAppend | assets/elfUtils.js:127 | The records of two blocks of lines are the records of the first block followed by those of the second. |
| ElfProperties.BlankLineHasNoRecord | assets/elfUtils.ts:62-63 | A line of white space only, the empty line among them, gives no record. |
| ElfProperties.ShortLineHasNoRecord | assets/elfUtils.js:83-84 | A line of one to three tokens, with any white space around and between them, gives no record. |
| ElfProperties.RecordOfTokens | assets/elfUtils.ts:99-105 | A line of four or more tokens gives a record with address `"0x"+token0`, size `parseInt(token1, 16)`, name token 3, file location token 4 or `"N/A"`, and the section of token 2. Any tokens after the fifth are ignored. |
| ElfProperties.FourFieldRecord | assets/elfUtils.js:118-124 | A line of exactly four space-separated fields gives the record of those fields, with location `"N/A"`. |
| ElfProperties.FiveFieldRecord | assets/elfUtils.ts:103 | For a line of five fields, the fifth after a tab, the fifth field is the file location. |
| ElfProperties.NmLineRecord | assets/elfUtils.ts:64-104 | A line as `nm -S -l` prints it, with a zero-padded hex size of value `n`, gives a record of size `n`. Its `size` text is the decimal text of `n` followed by `" (bytes)"`, and its other fields are the line's. |
| ElfProperties.SymbolsOfJoinedLines | assets/elfUtils.ts:52 | Text made by joining newline-free lines with `'\n'` is split back into exactly those lines, so it gives their records. |
| ElfProperties.Unlabelled | assets/elfUtils.ts:94-95 | The records of the `default` case are exactly the records whose label names no bucket: each returned record comes from the input and has no bucket, and every such input record is returned. Each such record occurs in the result exactly as often as in the input, and no other record occurs in it. |
| ElfProperties.BucketsPartition | assets/elfUtils.js:89-116 | Each record is counted exactly once: the sum of all sizes equals the five totals plus the sizes of the `Unknown` records. |
| ElfProperties.LineTouchesOneBucket | assets/elfUtils.ts:69-96 | One more line adds its record to the bucket of its section and to no other. A line with no record, or with an `Unknown` one, leaves every bucket as it was. |
| ElfProperties.SumSizesNaN | assets/elfUtils.ts:73 | A total is `NaN` exactly when the size of one of its records is `NaN`. |
| ElfProperties.SumSizesNatural | assets/elfUtils.js:93 | A sum of non-negative integer sizes is a non-negative integer, at least each of its parts. |
| ElfProperties.WellFormedSizesNatural | assets/elfUtils.js:85 | When every size field is made of hex digits, every record's size is a non-negative integer. |
| ElfProperties.TotalsNatural | assets/elfUtils.ts:53-92 | When every size field is made of hex digits, every total is a non-negative integer. |
| ElfProperties.TotalsGrow | assets/elfUtils.ts:70-92 | With well-formed sizes, totals never decrease: the totals of a listing are at most those of the listing with more lines appended. |
| ElfProperties.NaNSizePoisonsTotal | assets/elfUtils.js:85-94 | A record of a section whose size field `parseInt` cannot read makes that section's total `NaN`. |
| ElfProperties.OneLineTotal | assets/elfUtils.js:82-94 | For a one-line listing, the total of the line's section is that line's size. |
| ElfProperties.MainLineExample | assets/elfUtils.ts:61-105 | `00000100 00000010 T main` gives address `0x00000100`, size 16, name `main`, location `N/A` and section `.text`. |
| ElfProperties.MainLineTotal | assets/elfUtils.ts:70-74 | For the one-line listing `00000100 00000010 T main`, the `.text` total is 16. |
| ElfProperties.MalformedSizeExample | assets/elfUtils.ts:64 | `00000100 zz T main` gives a `.text` record of size `NaN`. |
| ElfProperties.MalformedSizeTotal | assets/elfUtils.js:90-93 | For the one-line listing `00000100 zz T main`, the `.text` total is `NaN`. |
| JsStrings.SplitJoin | assets/elfUtils.ts:52 | Joining the pieces of `split('\n')` with `'\n'` gives back the text. |
| JsStrings.JoinSplit | assets/elfUtils.js:74 | Newline-free pieces joined with `'\n'` split back into exactly those pieces. |
| JsStrings.SplitPiecesFree | assets/elfUtils.js:74 | No piece of `split('\n')` contains `'\n'`. |
| JsStrings.TrimStartSpec | assets/elfUtils.ts:62 | `trim` removes the longest all-whitespace prefix. |
| JsStrings.TrimEndSpec | assets/elfUtils.js:83 | `trim` removes the longest all-whitespace suffix. |
| JsStrings.TrimTrimmed | assets/elfUtils.ts:62 | Neither end of a trimmed string is white space. |
| JsStrings.TrimPadded | assets/elfUtils.ts:62 | Trimming white space from around an already-trimmed string gives that string. |
| JsStrings.SplitSpacesNoSpace | assets/elfUtils.ts:62 | No piece of `split(/\s+/)` contains white space. |
| JsStrings.SplitSpacesNonEmpty | assets/elfUtils.ts:62 | On a non-empty trimmed string, every piece of `split(/\s+/)` is non-empty. |
| JsStrings.SplitSpacesStrip | assets/elfUtils.js:83 | The pieces of `split(/\s+/)`, concatenated, are the string with all its white space removed: no character is lost, none added. |
| JsStrings.SplitSpacesInterleave | assets/elfUtils.ts:62 | Tokens separated by runs of white space split back into exactly those tokens. |
| JsStrings.FieldsOfLine | assets/elfUtils.ts:62-63 | `line.trim().split(/\s+/)` of a line of tokens between and within white space is exactly those tokens. |
| JsNumbers.PlusLaws | assets/elfUtils.ts:73 | `+=` on sizes is commutative and associative, with `0` as identity and `NaN` absorbing, so a running total does not depend on how its additions are grouped. Its associativity law is the last step of `ElfProperties.SumSizesAppend`: the total of two blocks of records is the sum of their totals. |
| JsNumbers.ParseIntHexOfDigits | assets/elfUtils.ts:64 | `parseInt(s, 16)` of a non-empty run of hex digits is its value. |
| JsNumbers.ParseIntHexIgnoresTail | assets/elfUtils.js:85 | `parseInt(s, 16)` stops at the first non-hex character and ignores the rest, except that a lone `0` followed by `x` or `X` forms the `0x` prefix. |
| JsNumbers.ParseIntHexOfNonHex | assets/elfUtils.ts:64 | A size field starting with a character that is not white space, a sign or a hex digit reads as `NaN`. |
| JsNumbers.ParseIntHexOfPaddedHex | assets/elfUtils.js:85 | Reading the zero-padded hex text of `n` gives `n`. |
| JsNumbers.NumberText | assets/elfUtils.ts:101 | The text of a size is `"NaN"` exactly for `NaN`. A non-negative integer gives decimal digits whose value is the number, with no leading zero except for `0` itself. A negative one gives `-` followed by the digits of its absolute value, again with no leading zero. |
| JsNumbers.DecValueDecText | assets/elfUtils.js:120 | The decimal text of a size reads back as that size. |

`ParseElfSymbols` returns its results through `ensures` clauses that tie
them to functions of `output` alone, so the parse is deterministic: the
same listing always gives the same records and totals.

## Left out

- Opening the file dialog, spawning `nm`, collecting its output, and the error messages (`showOpenFileDialog`, `loadElfSymbols`) are I/O. The model takes the collected output as its input.
- `panel.webview.postMessage`: the totals are returned instead of posted. The `command: 'displaySymbols'` envelope is not modelled.
- The extension entry point and the webview page are user interface and not part of this model. Neither is the bundler configuration.
- JsNumber: sizes are exact integers. The model omits double-precision rounding of sizes and sums above 2^53, overflow to `Infinity` (a size field whose value is 2^1024−2^970 or more, past the largest double, reads as `Infinity` and prints as `Infinity (bytes)`), and the exponent notation JavaScript uses to print numbers of 10^21 or more.
- NumberText: `-0` is identified with `0`. A negative size only arises from a `-` sign in the size field, and `parseInt("-0", 16)` prints as `0`.
- JsStrings: strings are sequences of code points, so characters outside the Basic Multilingual Plane are one element instead of a UTF-16 surrogate pair. None of them is white space or a hex digit, so fields and sizes are unaffected.
- The lines are processed by one loop. The source's `map` followed by `filter` gives the same records in the same order, and the totals are only ever updated inside the callback.
