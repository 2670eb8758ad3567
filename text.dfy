/** Option, the stock wrapper for a value that may be absent (JavaScript's `null`). */
module Options {
  datatype Option<+T> = None | Some(value: T)
}

/** The string operations the crawlers use: JavaScript white space, `trim`,
    `replace(/\s+/g, '')`, `startsWith`, `endsWith` and `includes`. */
module Text {

  /** The characters JavaScript's `\s` and `String.prototype.trim` treat as
      white space: TAB, LF, VT, FF, CR, SPACE, NBSP, the Unicode space
      separators, LINE/PARAGRAPH SEPARATOR and the byte-order mark. */
  predicate IsSpace(c: char) {
    var n := c as int;
    (0x09 <= n <= 0x0D) || n == 0x20 || n == 0xA0 || n == 0x1680 || (0x2000 <= n <= 0x200A)
    || n == 0x2028 || n == 0x2029 || n == 0x202F || n == 0x205F || n == 0x3000 || n == 0xFEFF
  }

  /** The class `[\n\r]`. */
  predicate IsLineBreak(c: char) {
    c == '\n' || c == '\r'
  }

  lemma LineBreakIsSpace(c: char)
    requires IsLineBreak(c)
    ensures IsSpace(c)
  {
  }

  predicate NoSpaces(s: string) {
    forall i :: 0 <= i < |s| ==> !IsSpace(s[i])
  }

  predicate AllSpaces(s: string) {
    forall i :: 0 <= i < |s| ==> IsSpace(s[i])
  }

  predicate NoLineBreaks(s: string) {
    forall i :: 0 <= i < |s| ==> !IsLineBreak(s[i])
  }

  /** Neither end of `s` is white space. */
  predicate IsTrimmed(s: string) {
    s == [] || (!IsSpace(s[0]) && !IsSpace(s[|s| - 1]))
  }

  predicate StartsWith(s: string, prefix: string) {
    |prefix| <= |s| && s[..|prefix|] == prefix
  }

  predicate EndsWith(s: string, suffix: string) {
    |suffix| <= |s| && s[|s| - |suffix|..] == suffix
  }

  /** `s.includes(sub)`: `sub` occurs at some position of `s`. */
  predicate Contains(s: string, sub: string) {
    exists i :: 0 <= i <= |s| && StartsWith(s[i..], sub)
  }

  lemma ContainsAt(s: string, sub: string, i: nat)
    requires i + |sub| <= |s| && s[i..i + |sub|] == sub
    ensures Contains(s, sub)
  {
    assert StartsWith(s[i..], sub);
  }

  /** A text that lacks one of the characters of `sub` does not contain `sub`. */
  lemma MissingCharNotContained(s: string, sub: string, k: nat)
    requires k < |sub| && forall i :: 0 <= i < |s| ==> s[i] != sub[k]
    ensures !Contains(s, sub)
  {
    forall i | 0 <= i <= |s| ensures !StartsWith(s[i..], sub) {
      if |sub| <= |s[i..]| {
        assert s[i..][..|sub|][k] == s[i + k];
      }
    }
  }

  /** `s` without its leading white space. */
  function TrimStart(s: string): (r: string)
    ensures |r| <= |s|
  {
    if s != [] && IsSpace(s[0]) then TrimStart(s[1..]) else s
  }

  /** `s` without its trailing white space. */
  function TrimEnd(s: string): (r: string)
    ensures |r| <= |s|
  {
    if s != [] && IsSpace(s[|s| - 1]) then TrimEnd(s[..|s| - 1]) else s
  }

  /** `s.trim()`: `s` without its leading and trailing white space. */
  function Trim(s: string): (r: string)
    ensures IsTrimmed(r) && |r| <= |s|
  {
    var t := TrimStart(s);
    TrimStartShape(s);
    TrimEndShape(t);
    assert TrimEnd(t) != [] ==> TrimEnd(t)[0] == t[0];
    TrimEnd(t)
  }

  /** `TrimStart(s)` is what follows the white space at the front of `s`. */
  lemma {:induction false} TrimStartShape(s: string)
    ensures TrimStart(s) == s[|s| - |TrimStart(s)|..]
    ensures TrimStart(s) == [] || !IsSpace(TrimStart(s)[0])
    ensures forall i :: 0 <= i < |s| - |TrimStart(s)| ==> IsSpace(s[i])
  {
    if s != [] && IsSpace(s[0]) {
      TrimStartShape(s[1..]);
      assert forall i :: 1 <= i < |s| ==> s[i] == s[1..][i - 1];
    }
  }

  /** `TrimEnd(s)` is what precedes the white space at the back of `s`. */
  lemma {:induction false} TrimEndShape(s: string)
    ensures TrimEnd(s) == s[..|TrimEnd(s)|]
    ensures TrimEnd(s) == [] || !IsSpace(TrimEnd(s)[|TrimEnd(s)| - 1])
    ensures forall i :: |TrimEnd(s)| <= i < |s| ==> IsSpace(s[i])
  {
    if s != [] && IsSpace(s[|s| - 1]) {
      TrimEndShape(s[..|s| - 1]);
      assert forall i :: 0 <= i < |s| - 1 ==> s[i] == s[..|s| - 1][i];
    }
  }

  /** Where `Trim(s)` starts inside `s`: the number of leading spaces. */
  function TrimOffset(s: string): nat {
    |s| - |TrimStart(s)|
  }

  /** What `Trim` removes is white space at either end, and only that:
      `Trim(s)` sits in `s` at `TrimOffset(s)` with only white space around it. */
  lemma TrimIsInfix(s: string)
    ensures TrimOffset(s) + |Trim(s)| <= |s|
    ensures s[TrimOffset(s)..TrimOffset(s) + |Trim(s)|] == Trim(s)
    ensures forall i :: 0 <= i < TrimOffset(s) ==> IsSpace(s[i])
    ensures forall i :: TrimOffset(s) + |Trim(s)| <= i < |s| ==> IsSpace(s[i])
  {
    var t := TrimStart(s);
    var o := TrimOffset(s);
    TrimStartShape(s);
    TrimEndShape(t);
    forall i | o + |Trim(s)| <= i < |s| ensures IsSpace(s[i]) {
      assert s[i] == t[i - o];
    }
  }

  /** `Trim(s)` is the slice of `s` at `TrimOffset(s)`. */
  lemma TrimSlice(s: string)
    ensures TrimOffset(s) + |Trim(s)| <= |s|
    ensures s[TrimOffset(s)..TrimOffset(s) + |Trim(s)|] == Trim(s)
  {
    TrimIsInfix(s);
  }

  /** A character that is not white space survives trimming. */
  lemma TrimKeepsNonSpace(s: string, i: nat)
    requires i < |s| && !IsSpace(s[i])
    ensures TrimOffset(s) <= i < TrimOffset(s) + |Trim(s)|
  {
    TrimIsInfix(s);
  }

  /** A text found inside a part of `s` is found in that part. */
  lemma InfixOfInfix(s: string, r: string, w: string, a: nat, i: nat)
    requires a <= i && i + |w| <= a + |r| <= |s|
    requires s[a..a + |r|] == r && s[i..i + |w|] == w
    ensures Contains(r, w)
  {
    forall k | 0 <= k < |w| ensures r[i - a + k] == w[k] {
      assert r[i - a + k] == s[i + k];
    }
    assert r[i - a..i - a + |w|] == w;
    ContainsAt(r, w, i - a);
  }

  /** A span of `s` whose two ends are not white space survives trimming. */
  lemma TrimKeepsInfix(s: string, i: nat, len: nat)
    requires 0 < len && i + len <= |s| && !IsSpace(s[i]) && !IsSpace(s[i + len - 1])
    ensures Contains(Trim(s), s[i..i + len])
  {
    TrimKeepsNonSpace(s, i);
    TrimKeepsNonSpace(s, i + len - 1);
    TrimSlice(s);
    InfixOfInfix(s, Trim(s), s[i..i + len], TrimOffset(s), i);
  }

  lemma TrimOfTrimmed(s: string)
    requires IsTrimmed(s)
    ensures Trim(s) == s
  {
  }

  lemma TrimEmpty(s: string)
    ensures Trim(s) == [] <==> AllSpaces(s)
  {
    TrimIsInfix(s);
    TrimStartShape(s);
    var t := TrimStart(s);
    assert t != [] ==> t[0] == s[TrimOffset(s)];
  }

  /** Trimming a trimmed text followed by one white-space character drops
      just that character. */
  lemma TrimDropsFinalSpace(core: string, c: char)
    requires core != [] && IsTrimmed(core) && IsSpace(c)
    ensures Trim(core + [c]) == core
  {
    var s := core + [c];
    assert s[0] == core[0];
    assert TrimStart(s) == s;
    assert s[..|s| - 1] == core;
    assert TrimEnd(core) == core;
  }

  lemma TrimKeepsNoLineBreaks(s: string)
    requires NoLineBreaks(s)
    ensures NoLineBreaks(Trim(s))
  {
    TrimSlice(s);
    var r := Trim(s);
    var a := TrimOffset(s);
    forall i | 0 <= i < |r| ensures !IsLineBreak(r[i]) {
      assert r[i] == s[a + i];
    }
  }

  /** `s.replace(/\s+/g, '')`: every white-space character removed. */
  function StripSpaces(s: string): string {
    if s == [] then []
    else StripSpaces(s[..|s| - 1]) + (if IsSpace(s[|s| - 1]) then [] else [s[|s| - 1]])
  }

  lemma {:induction false} StripSpacesOfNoSpaces(s: string)
    requires NoSpaces(s)
    ensures StripSpaces(s) == s
  {
    if s != [] {
      StripSpacesOfNoSpaces(s[..|s| - 1]);
      assert s[..|s| - 1] + [s[|s| - 1]] == s;
    }
  }

  lemma {:induction false} StripSpacesConcat(a: string, b: string)
    ensures StripSpaces(a + b) == StripSpaces(a) + StripSpaces(b)
  {
    if b == [] {
      assert a + b == a;
    } else {
      var ab := a + b;
      assert ab[..|ab| - 1] == a + b[..|b| - 1];
      assert ab[|ab| - 1] == b[|b| - 1];
      StripSpacesConcat(a, b[..|b| - 1]);
    }
  }

  lemma StripSpacesOfSpace()
    ensures StripSpaces(" ") == []
  {
    assert " "[1..] == [];
  }

  /** Removing the white space of `a + " " + b` joins the two space-free halves. */
  lemma StripSpacesJoin(a: string, b: string)
    requires NoSpaces(a) && NoSpaces(b)
    ensures StripSpaces(a + " " + b) == a + b
  {
    StripSpacesConcat(a + " ", b);
    StripSpacesConcat(a, " ");
    StripSpacesOfSpace();
    StripSpacesOfNoSpaces(a);
    StripSpacesOfNoSpaces(b);
    assert a + [] + b == a + b;
  }
}
