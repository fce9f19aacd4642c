/**
 * The library string functions the server (Go) and the client (JavaScript)
 * rely on, written out over `seq<char>`: prefix and suffix tests, trimming a
 * prefix, ASCII lower-casing, `filepath.Ext`, `strings.Join` and, as its inverse, a split
 * on one separator character, `filepath.Base`, removal of one character, `Array.indexOf`,
 * `String.prototype.trim` and decimal formatting of a length.
 */
module Text {

  /** strings.HasPrefix */
  predicate HasPrefix(s: string, prefix: string) {
    |prefix| <= |s| && s[..|prefix|] == prefix
  }

  /** strings.HasSuffix */
  predicate HasSuffix(s: string, suffix: string) {
    |suffix| <= |s| && s[|s| - |suffix|..] == suffix
  }

  /** strings.TrimPrefix: removes `prefix` once when `s` starts with it. */
  function TrimPrefix(s: string, prefix: string): (r: string)
    ensures HasPrefix(s, prefix) ==> prefix + r == s
    ensures !HasPrefix(s, prefix) ==> r == s
  {
    if HasPrefix(s, prefix) then
      assert s == s[..|prefix|] + s[|prefix|..];
      s[|prefix|..]
    else s
  }

  /** Lower-cases one character; only the ASCII letters A-Z change. */
  function LowerChar(c: char): char {
    if 'A' <= c <= 'Z' then (c as int + 32) as char else c
  }

  /** strings.ToLower, restricted to the ASCII letters. */
  function ToLower(s: string): (r: string)
    ensures |r| == |s|
  {
    if s == [] then [] else ToLower(s[..|s| - 1]) + [LowerChar(s[|s| - 1])]
  }

  /** Each character of ToLower(s) is the lower-cased character at the same place in `s`. */
  lemma {:induction false} ToLowerAt(s: string)
    ensures forall i :: 0 <= i < |s| ==> ToLower(s)[i] == LowerChar(s[i])
  {
    if s != [] {
      ToLowerAt(s[..|s| - 1]);
    }
  }

  /** The final element of `path`: what follows its last '/', or all of it. */
  function LastElement(path: string): (r: string)
    ensures HasSuffix(path, r) && '/' !in r
    ensures |r| < |path| ==> path[|path| - |r| - 1] == '/'
  {
    if |path| == 0 || path[|path| - 1] == '/' then ""
    else LastElement(path[..|path| - 1]) + [path[|path| - 1]]
  }

  /**
   * filepath.Ext on a system whose separator is '/': the suffix of `path` that
   * starts at the last '.' of its final element, or "" when that element has
   * no '.'. Go scans from the end and stops at the first separator.
   */
  function Ext(path: string): string {
    if |path| == 0 || path[|path| - 1] == '/' then ""
    else if path[|path| - 1] == '.' then "."
    else
      var e := Ext(path[..|path| - 1]);
      if e == "" then "" else e + [path[|path| - 1]]
  }

  /** The path without its trailing '/' characters. */
  function TrimTrailingSlashes(path: string): (r: string)
    ensures r == "" || r[|r| - 1] != '/'
    ensures HasPrefix(path, r)
    ensures forall i :: |r| <= i < |path| ==> path[i] == '/'
  {
    if |path| > 0 && path[|path| - 1] == '/' then TrimTrailingSlashes(path[..|path| - 1]) else path
  }

  /**
   * filepath.Base on a system whose separator is '/': "." for an empty path,
   * "/" for a path of slashes only, otherwise the final element once the
   * trailing slashes are dropped.
   */
  function Base(path: string): (r: string)
    ensures r != ""
    ensures r == "/" || '/' !in r
    ensures path == "" ==> r == "."
    ensures path != "" && TrimTrailingSlashes(path) == "" ==> r == "/"
    ensures TrimTrailingSlashes(path) != "" ==> r == LastElement(TrimTrailingSlashes(path))
    ensures path != "" && path[|path| - 1] != '/' ==> r == LastElement(path)
  {
    if path == "" then "."
    else
      var trimmed := TrimTrailingSlashes(path);
      if trimmed == "" then "/" else LastElement(trimmed)
  }

  /** Ext gives a suffix of the final element of the path. */
  lemma {:induction false} ExtInLastElement(path: string)
    ensures HasSuffix(LastElement(path), Ext(path))
  {
    if |path| > 0 && path[|path| - 1] != '/' {
      var init, c := path[..|path| - 1], path[|path| - 1];
      assert LastElement(path) == LastElement(init) + [c];
      if c != '.' && Ext(init) != "" {
        ExtInLastElement(init);
        HasSuffixSnoc(LastElement(init), Ext(init), c);
      }
    }
  }

  /**
   * Ext is "" exactly when the final element has no '.'; otherwise it starts
   * with a '.' and holds no other one, so it starts at the element's last '.'.
   */
  lemma {:induction false} ExtStartsAtLastDot(path: string)
    ensures var r := Ext(path);
      && (r == "" <==> '.' !in LastElement(path))
      && (r != "" ==> r[0] == '.' && '.' !in r[1..])
  {
    if |path| > 0 && path[|path| - 1] != '/' {
      var init, c := path[..|path| - 1], path[|path| - 1];
      var last := LastElement(init);
      assert LastElement(path) == last + [c];
      if c != '.' {
        ExtStartsAtLastDot(init);
        var e := Ext(init);
        assert '.' in last + [c] <==> '.' in last;
        if e != "" {
          assert Ext(path) == e + [c];
          assert (e + [c])[1..] == e[1..] + [c];
        }
      }
    }
  }

  lemma HasSuffixSnoc(s: string, suffix: string, c: char)
    requires HasSuffix(s, suffix)
    ensures HasSuffix(s + [c], suffix + [c])
  {
    assert (s + [c])[|s| + 1 - |suffix| - 1..] == s[|s| - |suffix|..] + [c];
  }

  /** The extension of a base name followed by a suffix that holds one '.', at its start, and no '/'. */
  lemma {:induction false} ExtOfDotSuffix(base: string, suffix: string)
    requires suffix != [] && suffix[0] == '.'
    requires forall i :: 1 <= i < |suffix| ==> suffix[i] != '.' && suffix[i] != '/'
    ensures Ext(base + suffix) == suffix
  {
    var path := base + suffix;
    if |suffix| > 1 {
      var init := suffix[..|suffix| - 1];
      assert path[..|path| - 1] == base + init;
      ExtOfDotSuffix(base, init);
      assert init + [suffix[|suffix| - 1]] == suffix;
    }
  }

  lemma ToLowerSnoc(s: string, c: char)
    ensures ToLower(s + [c]) == ToLower(s) + [LowerChar(c)]
  {
    assert (s + [c])[..|s|] == s;
  }

  /** Lower-casing a path and taking its extension commute. */
  lemma {:induction false} ExtOfLower(path: string)
    ensures Ext(ToLower(path)) == ToLower(Ext(path))
  {
    if |path| > 0 {
      var init, c := path[..|path| - 1], path[|path| - 1];
      assert path == init + [c];
      ToLowerSnoc(init, c);
      var low := ToLower(init) + [LowerChar(c)];
      assert low[..|low| - 1] == ToLower(init);
      ExtOfLower(init);
      if c != '/' && c != '.' {
        var e := Ext(init);
        assert Ext(low) == if Ext(ToLower(init)) == "" then "" else Ext(ToLower(init)) + [LowerChar(c)];
        if e != "" {
          ToLowerSnoc(e, c);
        }
      }
    }
  }

  /** strings.Join */
  function Join(parts: seq<string>, sep: string): string {
    if parts == [] then ""
    else if |parts| == 1 then parts[0]
    else parts[0] + sep + Join(parts[1..], sep)
  }

  /** strings.Split with a separator of one character: always at least one piece. */
  function Split(s: string, sep: char): (r: seq<string>)
    ensures |r| >= 1
  {
    if s == [] then [""]
    else
      var rest := Split(s[1..], sep);
      if s[0] == sep then [""] + rest else [[s[0]] + rest[0]] + rest[1..]
  }

  lemma {:induction false} SplitWithoutSeparator(s: string, sep: char)
    requires sep !in s
    ensures Split(s, sep) == [s]
  {
    if s != [] {
      SplitWithoutSeparator(s[1..], sep);
      assert [s[0]] + s[1..] == s;
    }
  }

  lemma {:induction false} SplitPiece(x: string, rest: string, sep: char)
    requires sep !in x
    ensures Split(x + [sep] + rest, sep) == [x] + Split(rest, sep)
  {
    var s := x + [sep] + rest;
    if x == [] {
      assert s[1..] == rest;
    } else {
      assert s[1..] == x[1..] + [sep] + rest;
      SplitPiece(x[1..], rest, sep);
      assert [x[0]] + x[1..] == x;
    }
  }

  /** Splitting what Join produced, on a separator no part contains, gives the parts back. */
  lemma {:induction false} SplitJoin(parts: seq<string>, sep: char)
    requires parts != []
    requires forall i :: 0 <= i < |parts| ==> sep !in parts[i]
    ensures Split(Join(parts, [sep]), sep) == parts
  {
    if |parts| == 1 {
      SplitWithoutSeparator(parts[0], sep);
    } else {
      SplitJoin(parts[1..], sep);
      SplitPiece(parts[0], Join(parts[1..], [sep]), sep);
      assert [parts[0]] + parts[1..] == parts;
    }
  }

  /**
   * strings.ReplaceAll(s, c, "") for a one-character `c`: every `c` is
   * removed and every other character keeps its number of occurrences.
   */
  function Without(s: string, c: char): (r: string)
    ensures c !in r
    ensures forall d :: d != c ==> multiset(r)[d] == multiset(s)[d]
  {
    if s == [] then []
    else
      assert s == [s[0]] + s[1..];
      (if s[0] == c then [] else [s[0]]) + Without(s[1..], c)
  }

  /** Removing `c` from nothing or from one character: the character is kept exactly when it is not `c`. */
  lemma WithoutUnit(x: char, c: char)
    ensures Without([], c) == []
    ensures Without([x], c) == if x == c then [] else [x]
  {
    assert [x][1..] == [];
  }

  /**
   * Removal distributes over concatenation. With WithoutUnit this fixes the
   * result completely: the kept characters stay in their order.
   */
  lemma {:induction false} WithoutAppend(a: string, b: string, c: char)
    ensures Without(a + b, c) == Without(a, c) + Without(b, c)
  {
    if a == [] {
      assert a + b == b;
    } else {
      var head := if a[0] == c then [] else [a[0]];
      calc {
        Without(a + b, c);
        { assert (a + b)[0] == a[0] && (a + b)[1..] == a[1..] + b; }
        head + Without(a[1..] + b, c);
        { WithoutAppend(a[1..], b, c); }
        head + (Without(a[1..], c) + Without(b, c));
        (head + Without(a[1..], c)) + Without(b, c);
      }
    }
  }

  /** Array.prototype.indexOf: the first index holding `x`, or -1. */
  function IndexOf<T(==)>(s: seq<T>, x: T): (r: int)
    ensures -1 <= r < |s|
    ensures r == -1 <==> x !in s
    ensures r >= 0 ==> s[r] == x && x !in s[..r]
  {
    if s == [] then -1
    else if s[0] == x then 0
    else
      var k := IndexOf(s[1..], x);
      assert s == [s[0]] + s[1..];
      if k == -1 then -1
      else
        assert s[..k + 1] == [s[0]] + s[1..][..k];
        k + 1
  }

  /** The characters String.prototype.trim removes: WhiteSpace and LineTerminator of ECMAScript. */
  predicate IsJsWhitespace(c: char) {
    || c == '\t' || c == '\U{000B}' || c == '\U{000C}' || c == ' ' || c == '\U{00A0}'
    || c == '\U{FEFF}' || c == '\U{1680}' || '\U{2000}' <= c <= '\U{200A}'
    || c == '\U{202F}' || c == '\U{205F}' || c == '\U{3000}'
    || c == '\n' || c == '\r' || c == '\U{2028}' || c == '\U{2029}'
  }

  predicate IsBlank(s: string) {
    forall i :: 0 <= i < |s| ==> IsJsWhitespace(s[i])
  }

  function TrimStart(s: string): string {
    if s != [] && IsJsWhitespace(s[0]) then TrimStart(s[1..]) else s
  }

  function TrimEnd(s: string): string {
    if s != [] && IsJsWhitespace(s[|s| - 1]) then TrimEnd(s[..|s| - 1]) else s
  }

  /** String.prototype.trim */
  function Trim(s: string): string {
    TrimEnd(TrimStart(s))
  }

  lemma {:induction false} TrimStartEmpty(s: string)
    ensures TrimStart(s) == "" <==> IsBlank(s)
    ensures TrimStart(s) != "" ==> !IsJsWhitespace(TrimStart(s)[0])
  {
    if s != [] && IsJsWhitespace(s[0]) {
      TrimStartEmpty(s[1..]);
      assert IsBlank(s[1..]) ==> IsBlank(s) by {
        assert forall i :: 1 <= i < |s| ==> s[i] == s[1..][i - 1];
      }
    }
  }

  lemma {:induction false} TrimEndEmpty(s: string)
    ensures TrimEnd(s) == "" ==> IsBlank(s)
  {
    if s != [] && IsJsWhitespace(s[|s| - 1]) {
      TrimEndEmpty(s[..|s| - 1]);
    }
  }

  /** A string trims to "" exactly when every character of it is whitespace. */
  lemma TrimEmptyIffBlank(s: string)
    ensures Trim(s) == "" <==> IsBlank(s)
  {
    TrimStartEmpty(s);
    var t := TrimStart(s);
    TrimEndEmpty(t);
  }

  function DigitChar(d: nat): char
    requires d < 10
  {
    ('0' as int + d) as char
  }

  /** strconv.Itoa for a length: the decimal digits of `n`. */
  function NatToString(n: nat): (r: string)
    ensures r != []
    ensures forall i :: 0 <= i < |r| ==> '0' <= r[i] <= '9'
  {
    if n < 10 then [DigitChar(n)] else NatToString(n / 10) + [DigitChar(n % 10)]
  }

  /** The number a string of decimal digits denotes, as strconv.Atoi reads it. */
  function DigitsValue(s: string): nat
    requires forall i :: 0 <= i < |s| ==> '0' <= s[i] <= '9'
  {
    if s == [] then 0 else DigitsValue(s[..|s| - 1]) * 10 + (s[|s| - 1] as int - '0' as int)
  }

  /** The digits written for a length read back as that length. */
  lemma {:induction false} NatToStringRoundTrip(n: nat)
    ensures DigitsValue(NatToString(n)) == n
  {
    if n >= 10 {
      NatToStringRoundTrip(n / 10);
      var r := NatToString(n);
      assert r[..|r| - 1] == NatToString(n / 10);
    }
  }
}
