/**
 * The JavaScript string operations that `parseElfSymbols` relies on:
 * `String.prototype.split` with a one-character separator, `trim`, and
 * `split(/\s+/)`. Strings are sequences of characters; whitespace is the
 * ECMAScript WhiteSpace and LineTerminator set, which `trim` and the
 * regular-expression class `\s` share.
 */
module JsStrings {

  /** ECMAScript WhiteSpace (TAB, VT, FF, SP, NBSP, ZWNBSP, category Zs) and LineTerminator (LF, CR, LS, PS). */
  predicate IsSpace(c: char)
  {
    c == '\t' || c == '\n' || c == '\U{000B}' || c == '\U{000C}' || c == '\r' || c == ' '
    || c == '\U{00A0}' || c == '\U{1680}' || ('\U{2000}' <= c <= '\U{200A}')
    || c == '\U{2028}' || c == '\U{2029}' || c == '\U{202F}' || c == '\U{205F}'
    || c == '\U{3000}' || c == '\U{FEFF}'
  }

  predicate NoSpace(s: string)
  {
    forall i :: 0 <= i < |s| ==> !IsSpace(s[i])
  }

  predicate AllSpace(s: string)
  {
    forall i :: 0 <= i < |s| ==> IsSpace(s[i])
  }

  /** Neither end of `s` is whitespace (vacuously true of the empty string). */
  predicate Trimmed(s: string)
  {
    s == [] || (!IsSpace(s[0]) && !IsSpace(s[|s| - 1]))
  }

  /** `s` with every whitespace character deleted. */
  function Strip(s: string): (r: string)
    ensures NoSpace(r)
    ensures |r| <= |s|
  {
    if s == [] then []
    else if IsSpace(s[0]) then Strip(s[1..])
    else [s[0]] + Strip(s[1..])
  }

  /** The concatenation of a sequence of strings. */
  function Concat(ps: seq<string>): string
  {
    if ps == [] then [] else ps[0] + Concat(ps[1..])
  }

  /** The inverse of `Split`: the pieces glued back together with `sep` between them. */
  function Join(ps: seq<string>, sep: char): string
    requires |ps| >= 1
  {
    if |ps| == 1 then ps[0] else ps[0] + [sep] + Join(ps[1..], sep)
  }

  // ---------------------------------------------------------------------
  // s.split(sep) for a one-character separator

  /**
   * `s.split(sep)`: the maximal separator-free pieces of `s`, in order,
   * including the empty pieces before a leading separator, between two
   * adjacent ones and after a trailing one. There is always at least one.
   */
  function Split(s: string, sep: char): (r: seq<string>)
    ensures |r| >= 1
  {
    if s == [] then [""]
    else
      var rest := Split(s[1..], sep);
      if s[0] == sep then [""] + rest
      else [[s[0]] + rest[0]] + rest[1..]
  }

  /** No piece of a split contains the separator. */
  lemma {:induction false} SplitPiecesFree(s: string, sep: char)
    ensures forall k :: 0 <= k < |Split(s, sep)| ==> sep !in Split(s, sep)[k]
  {
    if s != [] {
      SplitPiecesFree(s[1..], sep);
      var rest := Split(s[1..], sep);
      if s[0] != sep {
        assert sep !in [s[0]] + rest[0];
      }
    }
  }

  lemma JoinCons(c: char, ps: seq<string>, sep: char)
    requires |ps| >= 1
    ensures Join([[c] + ps[0]] + ps[1..], sep) == [c] + Join(ps, sep)
  {
    var qs := [[c] + ps[0]] + ps[1..];
    assert qs[1..] == ps[1..];
  }

  lemma JoinEmptyHead(ps: seq<string>, sep: char)
    requires |ps| >= 1
    ensures Join([""] + ps, sep) == [sep] + Join(ps, sep)
  {
    var qs := [""] + ps;
    assert qs[1..] == ps;
  }

  /** One step of `Split`: the first character either ends the first piece or belongs to it. */
  lemma SplitStep(s: string, sep: char)
    requires s != []
    ensures Split(s, sep) == if s[0] == sep then [""] + Split(s[1..], sep)
                             else [[s[0]] + Split(s[1..], sep)[0]] + Split(s[1..], sep)[1..]
  {
  }

  /** Splitting and joining again gives back the original text. */
  lemma {:induction false} SplitJoin(s: string, sep: char)
    ensures Join(Split(s, sep), sep) == s
  {
    if s != [] {
      var rest := Split(s[1..], sep);
      SplitJoin(s[1..], sep);
      SplitStep(s, sep);
      if s[0] == sep {
        JoinEmptyHead(rest, sep);
      } else {
        JoinCons(s[0], rest, sep);
      }
      assert s == [s[0]] + s[1..];
    }
  }

  /** Conversely, separator-free pieces joined with `sep` split back into the same pieces. */
  lemma {:induction false} JoinSplit(ps: seq<string>, sep: char)
    requires |ps| >= 1
    requires forall k :: 0 <= k < |ps| ==> sep !in ps[k]
    ensures Split(Join(ps, sep), sep) == ps
    decreases |ps|, |ps[0]|
  {
    if ps[0] == [] {
      if |ps| > 1 {
        JoinSplit(ps[1..], sep);
        var s := Join(ps, sep);
        assert s == [sep] + Join(ps[1..], sep);
        assert s[1..] == Join(ps[1..], sep);
        assert ps == [""] + ps[1..];
      }
    } else {
      var c := ps[0][0];
      var qs := [ps[0][1..]] + ps[1..];
      assert qs[1..] == ps[1..];
      assert sep !in qs[0] by { assert forall i :: 0 <= i < |qs[0]| ==> qs[0][i] == ps[0][i + 1]; }
      JoinSplit(qs, sep);
      assert ps[0] == [c] + qs[0];
      JoinCons(c, qs, sep);
      var s := Join(ps, sep);
      assert [[c] + qs[0]] + qs[1..] == ps;
      assert s == [c] + Join(qs, sep);
      assert s[1..] == Join(qs, sep);
      assert s[0] == c && c != sep;
    }
  }

  // ---------------------------------------------------------------------
  // s.trim()

  /** `s` without its leading whitespace. */
  function TrimStart(s: string): string
  {
    if s != [] && IsSpace(s[0]) then TrimStart(s[1..]) else s
  }

  /** `s` without its trailing whitespace. */
  function TrimEnd(s: string): string
  {
    if s != [] && IsSpace(s[|s| - 1]) then TrimEnd(s[..|s| - 1]) else s
  }

  /** `s.trim()`: `s` without leading and trailing whitespace. */
  function Trim(s: string): string
  {
    TrimEnd(TrimStart(s))
  }

  /** `TrimStart` removes the longest all-whitespace prefix: what remains is a suffix that does not start with whitespace. */
  lemma {:induction false} TrimStartSpec(s: string)
    ensures var r := TrimStart(s);
            |r| <= |s| && r == s[|s| - |r|..] && AllSpace(s[..|s| - |r|])
            && (r == [] || !IsSpace(r[0]))
  {
    if s != [] && IsSpace(s[0]) {
      TrimStartSpec(s[1..]);
      var r := TrimStart(s[1..]);
      assert s[..|s| - |r|] == [s[0]] + s[1..][..|s[1..]| - |r|];
    }
  }

  /** `TrimEnd` removes the longest all-whitespace suffix: what remains is a prefix that does not end with whitespace. */
  lemma {:induction false} TrimEndSpec(s: string)
    ensures var r := TrimEnd(s);
            |r| <= |s| && r == s[..|r|] && AllSpace(s[|r|..])
            && (r == [] || !IsSpace(r[|r| - 1]))
  {
    if s != [] && IsSpace(s[|s| - 1]) {
      var s' := s[..|s| - 1];
      TrimEndSpec(s');
      var r := TrimEnd(s');
      assert s[|r|..] == s'[|r|..] + [s[|s| - 1]];
    }
  }

  /** Neither end of a trimmed string is whitespace. */
  lemma TrimTrimmed(s: string)
    ensures Trimmed(Trim(s))
  {
    var t := TrimStart(s);
    TrimStartSpec(s);
    TrimEndSpec(t);
    var r := TrimEnd(t);
    if r != [] {
      assert r[0] == t[0];
    }
  }

  lemma {:induction false} TrimStartAfterSpace(lead: string, x: string)
    requires AllSpace(lead)
    requires x == [] || !IsSpace(x[0])
    ensures TrimStart(lead + x) == x
  {
    if lead != [] {
      assert (lead + x)[1..] == lead[1..] + x;
      TrimStartAfterSpace(lead[1..], x);
    }
  }

  lemma {:induction false} TrimEndBeforeSpace(x: string, trail: string)
    requires AllSpace(trail)
    requires x == [] || !IsSpace(x[|x| - 1])
    ensures TrimEnd(x + trail) == x
  {
    if trail != [] {
      var t := trail[..|trail| - 1];
      assert (x + trail)[..|x + trail| - 1] == x + t;
      TrimEndBeforeSpace(x, t);
    }
  }

  /** Whitespace around a trimmed string is exactly what `trim` removes. */
  lemma TrimPadded(lead: string, x: string, trail: string)
    requires AllSpace(lead) && AllSpace(trail) && Trimmed(x)
    ensures Trim(lead + x + trail) == x
  {
    assert lead + x + trail == lead + (x + trail);
    if x == [] {
      TrimStartAfterSpace(lead + trail, []);
      assert lead + trail + [] == lead + trail;
      assert lead + x + trail == lead + trail + [];
    } else {
      assert (x + trail)[0] == x[0];
      TrimStartAfterSpace(lead, x + trail);
      TrimEndBeforeSpace(x, trail);
    }
  }

  // ---------------------------------------------------------------------
  // s.split(/\s+/)

  /** The length of the longest whitespace-free prefix of `s`. */
  function NonSpaceSpan(s: string): (n: nat)
    ensures n <= |s|
  {
    if s == [] || IsSpace(s[0]) then 0 else NonSpaceSpan(s[1..]) + 1
  }

  lemma {:induction false} NonSpaceSpanSpec(s: string)
    ensures var n := NonSpaceSpan(s);
            NoSpace(s[..n]) && (n < |s| ==> IsSpace(s[n]))
  {
    if s != [] && !IsSpace(s[0]) {
      NonSpaceSpanSpec(s[1..]);
      var n := NonSpaceSpan(s[1..]);
      assert s[..n + 1] == [s[0]] + s[1..][..n];
    }
  }

  /**
   * `s.split(/\s+/)`: the pieces of `s` between maximal runs of whitespace,
   * with an empty first piece when `s` starts with whitespace and an empty
   * last piece when it ends with whitespace; `[""]` for the empty string.
   */
  function SplitSpaces(s: string): (r: seq<string>)
    ensures |r| >= 1
    decreases |s|
  {
    var n := NonSpaceSpan(s);
    if n == |s| then [s]
    else
      NonSpaceSpanSpec(s);
      TrimStartSpec(s[n..]);
      [s[..n]] + SplitSpaces(TrimStart(s[n..]))
  }

  /** No piece of `split(/\s+/)` contains whitespace. */
  lemma {:induction false} SplitSpacesNoSpace(s: string)
    ensures forall k :: 0 <= k < |SplitSpaces(s)| ==> NoSpace(SplitSpaces(s)[k])
    decreases |s|
  {
    var n := NonSpaceSpan(s);
    NonSpaceSpanSpec(s);
    if n == |s| {
      assert s[..n] == s;
    } else {
      TrimStartSpec(s[n..]);
      SplitSpacesNoSpace(TrimStart(s[n..]));
    }
  }

  /** `line.trim().split(/\s+/)`: the whitespace-separated fields of a line. */
  function Fields(line: string): seq<string>
  {
    SplitSpaces(Trim(line))
  }

  /** `toks[0] + gaps[0] + toks[1] + ... + toks[|toks| - 1]`. */
  function Interleave(toks: seq<string>, gaps: seq<string>): string
    requires |toks| >= 1 && |gaps| == |toks| - 1
  {
    if |toks| == 1 then toks[0] else toks[0] + gaps[0] + Interleave(toks[1..], gaps[1..])
  }

  /** Tokens that a `split(/\s+/)` would return intact: non-empty and free of whitespace. */
  predicate Tokens(toks: seq<string>)
  {
    forall k :: 0 <= k < |toks| ==> toks[k] != [] && NoSpace(toks[k])
  }

  /** Separators that `/\s+/` matches in full: non-empty runs of whitespace. */
  predicate Gaps(gaps: seq<string>)
  {
    forall k :: 0 <= k < |gaps| ==> gaps[k] != [] && AllSpace(gaps[k])
  }

  lemma {:induction false} InterleaveEnds(toks: seq<string>, gaps: seq<string>)
    requires |toks| >= 1 && |gaps| == |toks| - 1 && Tokens(toks)
    ensures var s := Interleave(toks, gaps);
            s != [] && s[0] == toks[0][0] && s[|s| - 1] == toks[|toks| - 1][|toks[|toks| - 1]| - 1]
  {
    if |toks| > 1 {
      InterleaveEnds(toks[1..], gaps[1..]);
    }
  }

  lemma {:induction false} NonSpaceSpanOfToken(t: string, rest: string)
    requires NoSpace(t)
    requires rest == [] || IsSpace(rest[0])
    ensures NonSpaceSpan(t + rest) == |t|
  {
    if t == [] {
      assert t + rest == rest;
    } else {
      assert (t + rest)[0] == t[0];
      assert (t + rest)[1..] == t[1..] + rest;
      NonSpaceSpanOfToken(t[1..], rest);
    }
  }

  /** One step of `split(/\s+/)`: a leading token, then the whitespace run that follows it. */
  lemma SplitSpacesStep(t: string, rest: string)
    requires t != [] && NoSpace(t)
    requires rest != [] && IsSpace(rest[0])
    ensures SplitSpaces(t + rest) == [t] + SplitSpaces(TrimStart(rest))
  {
    var s := t + rest;
    NonSpaceSpanOfToken(t, rest);
    assert s[..|t|] == t;
    assert s[|t|..] == rest;
  }

  lemma TokensTail(toks: seq<string>, gaps: seq<string>)
    requires |toks| >= 1 && Tokens(toks) && Gaps(gaps)
    ensures Tokens(toks[1..]) && Gaps(gaps[if gaps == [] then 0 else 1..])
  {
    assert forall k :: 0 <= k < |toks| - 1 ==> toks[1..][k] == toks[k + 1];
    if gaps != [] {
      assert forall k :: 0 <= k < |gaps| - 1 ==> gaps[1..][k] == gaps[k + 1];
    }
  }

  /** The first token of an interleaved line is split off, and its gap is dropped. */
  lemma SplitSpacesInterleaveStep(toks: seq<string>, gaps: seq<string>)
    requires |toks| >= 2 && |gaps| == |toks| - 1 && Tokens(toks) && Gaps(gaps)
    ensures Tokens(toks[1..]) && Gaps(gaps[1..])
    ensures SplitSpaces(Interleave(toks, gaps)) == [toks[0]] + SplitSpaces(Interleave(toks[1..], gaps[1..]))
  {
    TokensTail(toks, gaps);
    var tail := Interleave(toks[1..], gaps[1..]);
    var rest := gaps[0] + tail;
    assert Interleave(toks, gaps) == toks[0] + rest;
    SplitSpacesStep(toks[0], rest);
    InterleaveEnds(toks[1..], gaps[1..]);
    TrimStartAfterSpace(gaps[0], tail);
  }

  /** Splitting a whitespace-interleaved line on `/\s+/` recovers exactly its tokens. */
  lemma {:induction false} SplitSpacesInterleave(toks: seq<string>, gaps: seq<string>)
    requires |toks| >= 1 && |gaps| == |toks| - 1 && Tokens(toks) && Gaps(gaps)
    ensures SplitSpaces(Interleave(toks, gaps)) == toks
  {
    if |toks| == 1 {
      NonSpaceSpanOfToken(toks[0], []);
      assert toks[0] + [] == toks[0];
    } else {
      SplitSpacesInterleaveStep(toks, gaps);
      SplitSpacesInterleave(toks[1..], gaps[1..]);
      assert toks == [toks[0]] + toks[1..];
    }
  }

  /** The fields of a padded, whitespace-separated line are exactly its tokens. */
  lemma FieldsOfLine(lead: string, toks: seq<string>, gaps: seq<string>, trail: string)
    requires |toks| >= 1 && |gaps| == |toks| - 1 && Tokens(toks) && Gaps(gaps)
    requires AllSpace(lead) && AllSpace(trail)
    ensures Fields(lead + Interleave(toks, gaps) + trail) == toks
  {
    InterleaveEnds(toks, gaps);
    TrimPadded(lead, Interleave(toks, gaps), trail);
    SplitSpacesInterleave(toks, gaps);
  }

  /** On a trimmed non-empty string every field is non-empty. */
  lemma {:induction false} SplitSpacesNonEmpty(s: string)
    requires s != [] && Trimmed(s)
    ensures Tokens(SplitSpaces(s))
    decreases |s|
  {
    var n := NonSpaceSpan(s);
    NonSpaceSpanSpec(s);
    if n < |s| {
      var t := TrimStart(s[n..]);
      TrimStartSpec(s[n..]);
      assert t == s[|s| - |t|..];
      assert t != [] by { assert IsSpace(s[n]); }
      assert t[|t| - 1] == s[|s| - 1];
      SplitSpacesNonEmpty(t);
      assert n > 0;
    }
  }

  lemma ConcatCons(a: string, r: seq<string>)
    ensures Concat([a] + r) == a + Concat(r)
  {
    assert ([a] + r)[1..] == r;
  }

  /** Stripping the text that one step of `split(/\s+/)` consumes gives its first piece. */
  lemma {:induction false} StripSplitStep(s: string)
    requires NonSpaceSpan(s) < |s|
    ensures var n := NonSpaceSpan(s);
            Strip(s) == s[..n] + Strip(TrimStart(s[n..]))
  {
    var n := NonSpaceSpan(s);
    NonSpaceSpanSpec(s);
    var a, b := s[..n], s[n..];
    calc {
      Strip(s);
      { assert s == a + b; }
      Strip(a + b);
      { StripAppend(a, b); }
      Strip(a) + Strip(b);
      { StripNoSpace(a); }
      a + Strip(b);
      { StripTrimStart(b); }
      a + Strip(TrimStart(b));
    }
  }

  /** Leading whitespace does not survive stripping: `Strip(s)` is `Strip(TrimStart(s))`. */
  lemma StripTrimStart(s: string)
    ensures Strip(s) == Strip(TrimStart(s))
  {
    var t := TrimStart(s);
    TrimStartSpec(s);
    var w := s[..|s| - |t|];
    assert s == w + t;
    StripAppend(w, t);
    StripAllSpace(w);
  }

  /** Splitting on whitespace loses only whitespace: the fields glued together are the text without its spaces. */
  lemma {:induction false} SplitSpacesStrip(s: string)
    ensures Concat(SplitSpaces(s)) == Strip(s)
    decreases |s|
  {
    var n := NonSpaceSpan(s);
    NonSpaceSpanSpec(s);
    if n == |s| {
      assert s[..n] == s;
      StripNoSpace(s);
      ConcatCons(s, []);
    } else {
      var t := TrimStart(s[n..]);
      TrimStartSpec(s[n..]);
      SplitSpacesStrip(t);
      StripSplitStep(s);
      ConcatCons(s[..n], SplitSpaces(t));
    }
  }

  lemma {:induction false} StripAppend(a: string, b: string)
    ensures Strip(a + b) == Strip(a) + Strip(b)
  {
    if a != [] {
      assert (a + b)[1..] == a[1..] + b;
      StripAppend(a[1..], b);
    } else {
      assert a + b == b;
    }
  }

  lemma {:induction false} StripNoSpace(s: string)
    requires NoSpace(s)
    ensures Strip(s) == s
  {
    if s != [] {
      StripNoSpace(s[1..]);
    }
  }

  lemma {:induction false} StripAllSpace(s: string)
    requires AllSpace(s)
    ensures Strip(s) == []
  {
    if s != [] {
      StripAllSpace(s[1..]);
    }
  }
}
