/** The few pieces of Python's string and path library that the scripts rely
    on, written out over `string`: `str.strip()`, `str.find`/`str.rfind`,
    `str.split(':', 1)`, `os.path.splitext`, `Path(p).name`, `str(n)` for a
    natural number, `sep.join(...)` and `str.upper()` on ASCII text. */
module Text {
  import opened Wrappers

  /** `c.isspace()` in Python 3: the ASCII whitespace and separator controls
      and the Unicode space separators. */
  predicate IsSpace(c: char) {
    var n := c as int;
    (9 <= n <= 13) || (28 <= n <= 32) || n == 0x85 || n == 0xA0 || n == 0x1680
    || (0x2000 <= n <= 0x200A) || n == 0x2028 || n == 0x2029 || n == 0x202F
    || n == 0x205F || n == 0x3000
  }

  /** The end of the run of whitespace in `s` that starts at `i`. */
  function SpacesFrom(s: string, i: nat): (j: nat)
    requires i <= |s|
    ensures i <= j <= |s|
    ensures forall k :: i <= k < j ==> IsSpace(s[k])
    ensures j < |s| ==> !IsSpace(s[j])
    decreases |s| - i
  {
    if i < |s| && IsSpace(s[i]) then SpacesFrom(s, i + 1) else i
  }

  /** The start of the run of whitespace in `s` that ends at `j`. */
  function SpacesBefore(s: string, j: nat): (i: nat)
    requires j <= |s|
    ensures i <= j
    ensures forall k :: i <= k < j ==> IsSpace(s[k])
    ensures i > 0 ==> !IsSpace(s[i - 1])
  {
    if j > 0 && IsSpace(s[j - 1]) then SpacesBefore(s, j - 1) else j
  }

  /** `s.lstrip()` */
  function StripLeft(s: string): (r: string)
    ensures |r| <= |s| && r == s[|s| - |r|..]
    ensures forall k :: 0 <= k < |s| - |r| ==> IsSpace(s[k])
    ensures r != [] ==> !IsSpace(r[0])
  {
    s[SpacesFrom(s, 0)..]
  }

  /** `s.rstrip()` */
  function StripRight(s: string): (r: string)
    ensures |r| <= |s| && r == s[..|r|]
    ensures forall k :: |r| <= k < |s| ==> IsSpace(s[k])
    ensures r != [] ==> !IsSpace(r[|r| - 1])
  {
    s[..SpacesBefore(s, |s|)]
  }

  /** `r` is `s[i..i + |r|]` with only whitespace around it in `s`. */
  predicate TrimmedAt(s: string, i: nat, r: string) {
    i + |r| <= |s| && r == s[i..i + |r|]
    && (forall k :: 0 <= k < i ==> IsSpace(s[k]))
    && (forall k :: i + |r| <= k < |s| ==> IsSpace(s[k]))
  }

  /** `s.strip()`: whitespace removed from both ends and nowhere else. */
  function Strip(s: string): (r: string)
    ensures |r| <= |s|
    ensures r != [] ==> !IsSpace(r[0]) && !IsSpace(r[|r| - 1])
    ensures (forall k :: 0 <= k < |s| ==> !IsSpace(s[k])) ==> r == s
  {
    StripEnds(s);
    StripRight(StripLeft(s))
  }

  /** Stripping one side and then the other leaves no whitespace at either end
      and leaves whitespace-free text alone. */
  lemma StripEnds(s: string)
    ensures var r := StripRight(StripLeft(s));
            && |r| <= |s|
            && (r != [] ==> !IsSpace(r[0]) && !IsSpace(r[|r| - 1]))
            && ((forall k :: 0 <= k < |s| ==> !IsSpace(s[k])) ==> r == s)
  {
    var left := StripLeft(s);
    var r := StripRight(left);
    SpacelessUnchanged(s);
    if r != [] {
      assert r[0] == left[0];
    }
  }

  /** Text without whitespace is left alone by both one-sided strips. */
  lemma SpacelessUnchanged(s: string)
    ensures (forall k :: 0 <= k < |s| ==> !IsSpace(s[k])) ==> StripLeft(s) == s && StripRight(s) == s
  {
    if forall k :: 0 <= k < |s| ==> !IsSpace(s[k]) {
      var left, right := StripLeft(s), StripRight(s);
      if |left| < |s| {
        assert false;
      }
      assert left == s[0..] == s;
      if |right| < |s| {
        assert false;
      }
      assert right == s[..|s|] == s;
    }
  }

  /** The stripped text is a slice of `s` with only whitespace around it. */
  lemma StripTrims(s: string)
    ensures TrimmedAt(s, |s| - |StripLeft(s)|, Strip(s))
  {
    var left := StripLeft(s);
    var r := StripRight(left);
    var i := |s| - |left|;
    assert Strip(s) == r;
    assert left == s[i..];
    assert r == left[..|r|] == s[i..i + |r|];
    forall k | i + |r| <= k < |s| ensures IsSpace(s[k]) {
      assert s[k] == left[k - i];
    }
    assert TrimmedAt(s, i, r);
  }

  /** `s.find(c)` as an option: the first position holding `c`. */
  function IndexOf(s: string, c: char): (r: Option<nat>)
    ensures r.None? <==> c !in s
    ensures r.Some? ==> r.value < |s| && s[r.value] == c
    ensures r.Some? ==> forall k :: 0 <= k < r.value ==> s[k] != c
  {
    if s == [] then None
    else if s[0] == c then Some(0)
    else
      match IndexOf(s[1..], c)
      case None => None
      case Some(k) => Some(k + 1)
  }

  /** `s.rfind(c)`: the last position holding `c`, or -1. */
  function LastIndexOf(s: string, c: char): (r: int)
    ensures -1 <= r < |s|
    ensures r == -1 <==> c !in s
    ensures r >= 0 ==> s[r] == c
    ensures forall k :: r < k < |s| ==> s[k] != c
  {
    if s == [] then -1
    else if s[|s| - 1] == c then |s| - 1
    else
      var r := LastIndexOf(s[..|s| - 1], c);
      assert r == -1 ==> s == s[..|s| - 1] + [s[|s| - 1]];
      r
  }

  /** `Path(p).name`: the text after the last `/` (pathlib's normalisation of
      trailing separators and `.` components is not modelled). */
  function FileName(path: string): (r: string)
    ensures '/' !in r
    ensures |r| <= |path| && r == path[|path| - |r|..]
    ensures |r| < |path| ==> path[|path| - |r| - 1] == '/'
  {
    path[LastIndexOf(path, '/') + 1..]
  }

  predicate HasNonDot(s: string) {
    exists k :: 0 <= k < |s| && s[k] != '.'
  }

  /** `os.path.splitext` for POSIX paths: the extension starts at the last `.`
      of the final path component, provided that component has something other
      than dots before it (so `.bashrc` has no extension). */
  function SplitExt(path: string): (r: (string, string))
    ensures r.0 + r.1 == path
    ensures r.1 != [] ==> r.1[0] == '.'
    ensures forall k :: 0 <= k < |r.1| ==> r.1[k] != '/' && (k > 0 ==> r.1[k] != '.')
    ensures r.1 != [] ==> HasNonDot(r.0[LastIndexOf(path, '/') + 1..])
  {
    var i := ExtensionStart(path);
    CutShape(path, LastIndexOf(path, '/'), i);
    (path[..i], path[i..])
  }

  /** Cutting `path` at `i`, where a `.` follows the last `/` at `sep` with a
      non-dot between them and no `.` or `/` comes later, splits off an
      extension of the expected shape. */
  lemma CutShape(path: string, sep: int, i: nat)
    requires -1 <= sep && i <= |path|
    requires i < |path| ==> path[i] == '.' && sep < i && HasNonDot(path[sep + 1..i])
    requires forall k :: i < k < |path| ==> path[k] != '/' && path[k] != '.'
    ensures path[..i] + path[i..] == path
    ensures path[i..] != [] ==> path[i..][0] == '.'
    ensures forall k :: 0 <= k < |path[i..]| ==> path[i..][k] != '/' && (k > 0 ==> path[i..][k] != '.')
    ensures path[i..] != [] ==> HasNonDot(path[..i][sep + 1..])
  {
    if i < |path| {
      assert path[..i][sep + 1..] == path[sep + 1..i];
    }
  }

  /** Where `splitext` cuts `path`: at its last `.` when that lies in the
      final component with a non-dot before it there, otherwise at the end. */
  function ExtensionStart(path: string): (i: nat)
    ensures i <= |path|
    ensures i < |path| ==> path[i] == '.' && LastIndexOf(path, '/') < i
                           && HasNonDot(path[LastIndexOf(path, '/') + 1..i])
    ensures forall k :: i < k < |path| ==> path[k] != '/' && path[k] != '.'
  {
    var sep := LastIndexOf(path, '/');
    var dot := LastIndexOf(path, '.');
    if dot > sep && HasNonDot(path[sep + 1..dot]) then dot else |path|
  }

  /** The shape of an extension `splitext` splits off: a leading dot, then
      neither `.` nor `/`. */
  predicate IsExtension(ext: string) {
    ext != [] && ext[0] == '.' && forall k :: 0 <= k < |ext| ==> ext[k] != '/' && (k > 0 ==> ext[k] != '.')
  }

  /** An extension is split off exactly when the last `.` lies in the final
      path component with a non-dot before it there; `("out/thumb", ".png")`
      for `out/thumb.png`. */
  lemma SplitExtSplits(path: string)
    ensures var sep, dot := LastIndexOf(path, '/'), LastIndexOf(path, '.');
            SplitExt(path).1 != [] <==> dot > sep && HasNonDot(path[sep + 1..dot])
    ensures var sep, dot := LastIndexOf(path, '/'), LastIndexOf(path, '.');
            dot > sep && HasNonDot(path[sep + 1..dot]) ==> SplitExt(path) == (path[..dot], path[dot..])
  {
  }

  /** The decimal digit for `d`. */
  function Digit(d: nat): (c: char)
    requires d < 10
    ensures '0' <= c <= '9'
  {
    (48 + d) as char
  }

  /** `str(n)` for a natural number. */
  function NatToString(n: nat): (r: string)
    ensures r != []
    ensures forall k :: 0 <= k < |r| ==> '0' <= r[k] <= '9'
    ensures n >= 10 ==> |r| >= 2
  {
    if n < 10 then [Digit(n)] else NatToString(n / 10) + [Digit(n % 10)]
  }

  /** `str(n)` has no leading zero: only `0` itself starts with `'0'`. */
  lemma {:induction false} NatToStringLeadingDigit(n: nat)
    ensures NatToString(n)[0] == '0' ==> n == 0
  {
    if n >= 10 {
      NatToStringLeadingDigit(n / 10);
      assert NatToString(n)[0] == NatToString(n / 10)[0];
    }
  }

  /** The number a string of decimal digits spells, most significant first. */
  function DigitsValue(s: string): nat {
    if s == [] then 0
    else 10 * DigitsValue(s[..|s| - 1]) + (if '0' <= s[|s| - 1] <= '9' then s[|s| - 1] as int - 48 else 0)
  }

  /** `str(n)` spells `n`: reading its digits back gives `n`. */
  lemma {:induction false} NatToStringValue(n: nat)
    ensures DigitsValue(NatToString(n)) == n
  {
    var s := NatToString(n);
    if n >= 10 {
      assert s[..|s| - 1] == NatToString(n / 10);
      NatToStringValue(n / 10);
    }
  }

  /** Different numbers have different decimal spellings. */
  lemma {:induction false} NatToStringInjective(m: nat, n: nat)
    requires NatToString(m) == NatToString(n)
    ensures m == n
  {
    if m >= 10 && n >= 10 {
      var sm, sn := NatToString(m), NatToString(n);
      assert sm[|sm| - 1] == Digit(m % 10) && sn[|sn| - 1] == Digit(n % 10);
      assert m % 10 == n % 10;
      assert sm[..|sm| - 1] == NatToString(m / 10);
      assert sn[..|sn| - 1] == NatToString(n / 10);
      NatToStringInjective(m / 10, n / 10);
    }
  }

  /** `sep.join(parts)`: the parts in order, `sep` between neighbours. */
  function JoinWith(parts: seq<string>, sep: string): (r: string)
    ensures parts == [] ==> r == []
    ensures parts != [] ==> |parts[0]| <= |r| && r[..|parts[0]|] == parts[0]
    ensures parts != [] ==> |parts[|parts| - 1]| <= |r| && r[|r| - |parts[|parts| - 1]|..] == parts[|parts| - 1]
  {
    if parts == [] then []
    else if |parts| == 1 then parts[0]
    else
      var rest := JoinWith(parts[1..], sep);
      assert parts[1..][|parts[1..]| - 1] == parts[|parts| - 1];
      parts[0] + sep + rest
  }

  /** Joining one more part appends the separator and that part, as building
      the list line by line and joining it at the end does. */
  lemma {:induction false} JoinWithAppend(parts: seq<string>, p: string, sep: string)
    requires parts != []
    ensures JoinWith(parts + [p], sep) == JoinWith(parts, sep) + sep + p
  {
    if |parts| == 1 {
      assert (parts + [p])[1..] == [p];
    } else {
      var q := parts + [p];
      assert q[0] == parts[0] && q[1..] == parts[1..] + [p];
      JoinWithAppend(parts[1..], p, sep);
      calc {
        JoinWith(q, sep);
        parts[0] + sep + JoinWith(parts[1..] + [p], sep);
        parts[0] + sep + (JoinWith(parts[1..], sep) + sep + p);
        { Regroup(parts[0], sep, JoinWith(parts[1..], sep), p); }
        JoinWith(parts, sep) + sep + p;
      }
    }
  }

  /** Concatenation regrouped, kept apart so its proof stays small. */
  lemma Regroup(a: string, sep: string, b: string, c: string)
    ensures a + sep + (b + sep + c) == (a + sep + b) + sep + c
  {
  }

  /** `c.upper()` for an ASCII character; every other character is kept. */
  function UpperChar(c: char): char {
    if 'a' <= c <= 'z' then (c as int - 32) as char else c
  }

  /** `s.upper()` on ASCII text: each character upper-cased in place. */
  function AsciiUpper(s: string): (r: string)
    ensures |r| == |s|
    ensures forall k :: 0 <= k < |s| ==> r[k] == UpperChar(s[k])
  {
    if s == [] then []
    else [UpperChar(s[0])] + AsciiUpper(s[1..])
  }
}
