/** The pieces of Rust's standard library whose exact behaviour the pipeline depends on:
    `Path::extension`, `str::to_lowercase` (ASCII part), `str::trim`, `str::split` on a
    character and `usize::from_str`, with the decimal rendering they are inverse to. */
module Text {
  import opened Types

  /** Exclusive upper bound of `usize` on the 64-bit targets the application ships for. */
  const USIZE_LIMIT: nat := 0x1_0000_0000_0000_0000

  // ---------------------------------------------------------------- characters

  predicate IsDigit(c: char) { '0' <= c <= '9' }

  predicate AllDigits(s: string) { forall i :: 0 <= i < |s| ==> IsDigit(s[i]) }

  /** `char::is_whitespace`: the characters with the Unicode White_Space property. */
  predicate IsWhitespace(c: char) {
    || ('\t' <= c <= '\r') || c == ' ' || c == '\U{0085}' || c == '\U{00A0}'
    || c == '\U{1680}' || ('\U{2000}' <= c <= '\U{200A}') || c == '\U{2028}'
    || c == '\U{2029}' || c == '\U{202F}' || c == '\U{205F}' || c == '\U{3000}'
  }

  function LowerChar(c: char): char {
    if 'A' <= c <= 'Z' then (c as int + 32) as char
    else if c == '\U{212A}' then 'k'  // KELVIN SIGN lower-cases to an ASCII letter
    else c
  }

  /** Lower-casing of the characters whose lower case is an ASCII letter: `A`-`Z` and the
      Kelvin sign. Every other character is kept. `to_lowercase` keeps the other ASCII
      characters too; for every other non-ASCII character its result still contains a
      character outside ASCII, so it matches no extension either way. */
  function Lower(s: string): (r: string)
    ensures |r| == |s|
    ensures forall i :: 0 <= i < |s| && 'A' <= s[i] <= 'Z' ==> r[i] as int == s[i] as int + 32
    ensures forall i :: 0 <= i < |s| && s[i] == '\U{212A}' ==> r[i] == 'k'
    ensures forall i :: 0 <= i < |s| && !('A' <= s[i] <= 'Z') && s[i] != '\U{212A}' ==> r[i] == s[i]
    ensures forall i :: 0 <= i < |r| ==> !('A' <= r[i] <= 'Z') && r[i] != '\U{212A}'
  {
    if s == [] then [] else [LowerChar(s[0])] + Lower(s[1..])
  }

  /** Lower-casing twice is lower-casing once, so matching on `Lower(e)` ignores case. */
  lemma {:induction false} LowerIdempotent(s: string)
    ensures Lower(Lower(s)) == Lower(s)
  {
    if s != [] {
      LowerIdempotent(s[1..]);
      assert Lower(s)[1..] == Lower(s[1..]);
    }
  }

  // ---------------------------------------------------------------- trim

  /** Every character is white space. */
  predicate Blank(s: string) {
    forall i :: 0 <= i < |s| ==> IsWhitespace(s[i])
  }

  /** The first position at or after `i` that does not hold white space. */
  function SkipBlanks(s: string, i: nat): (n: nat)
    requires i <= |s|
    ensures i <= n <= |s|
    ensures forall k :: i <= k < n ==> IsWhitespace(s[k])
    ensures n == |s| || !IsWhitespace(s[n])
    decreases |s| - i
  {
    if i < |s| && IsWhitespace(s[i]) then SkipBlanks(s, i + 1) else i
  }

  /** The last position at or before `j` that does not follow white space. */
  function SkipBlanksBack(s: string, j: nat): (n: nat)
    requires j <= |s|
    ensures n <= j
    ensures forall k :: n <= k < j ==> IsWhitespace(s[k])
    ensures n == 0 || !IsWhitespace(s[n - 1])
  {
    if j > 0 && IsWhitespace(s[j - 1]) then SkipBlanksBack(s, j - 1) else j
  }

  /** `str::trim_start`: the longest suffix that does not start with white space. */
  function TrimStart(s: string): (r: string)
    ensures |r| <= |s| && r == s[|s| - |r|..]
    ensures Blank(s[..|s| - |r|])
    ensures r == [] || !IsWhitespace(r[0])
  {
    s[SkipBlanks(s, 0)..]
  }

  /** `str::trim_end`: the longest prefix that does not end in white space. */
  function TrimEnd(s: string): (r: string)
    ensures |r| <= |s| && r == s[..|r|]
    ensures Blank(s[|r|..])
    ensures r == [] || !IsWhitespace(r[|r| - 1])
  {
    s[..SkipBlanksBack(s, |s|)]
  }

  /** `str::trim`: the text between the leading and the trailing white space. */
  function Trim(s: string): (r: string)
    ensures r == [] || (!IsWhitespace(r[0]) && !IsWhitespace(r[|r| - 1]))
    ensures exists i :: 0 <= i <= |s| - |r| && r == s[i..i + |r|] && Blank(s[..i]) && Blank(s[i + |r|..])
  {
    var t := TrimStart(s);
    var r := TrimEnd(t);
    var i := |s| - |t|;
    assert t == s[i..];
    assert r == t[..|r|] == s[i..i + |r|];
    assert s[i + |r|..] == t[|r|..];
    assert Blank(s[..i]) && Blank(s[i + |r|..]);
    r
  }

  /** Trimming leaves nothing exactly when the text is white space only. */
  lemma TrimBlank(s: string)
    ensures Trim(s) == [] <==> Blank(s)
  {
    var t := TrimStart(s);
    var n := |s| - |t|;
    var r := TrimEnd(t);
    assert Trim(s) == r;
    if r == [] {
      assert t[|r|..] == t;
      assert s[..n] == s;
    } else {
      assert r[0] == t[0] == s[n];
    }
  }

  /** A trailing newline is what `trim` removes from a line printed by a tool. */
  lemma TrimLine(s: string)
    requires |s| > 0 && !IsWhitespace(s[0]) && !IsWhitespace(s[|s| - 1])
    ensures Trim(s + "\n") == s
  {
    var t := s + "\n";
    assert t[0] == s[0];
    assert TrimStart(t) == t;
    assert t[..|t| - 1] == s;
    assert IsWhitespace(t[|t| - 1]);
    assert TrimEnd(t) == TrimEnd(s);
    assert TrimEnd(s) == s;
  }

  // ---------------------------------------------------------------- split

  /** `s.split(sep)`: the pieces between separators; `n` separators give `n + 1` pieces. */
  function Split(s: string, sep: char): (parts: seq<string>)
    ensures |parts| >= 1
    ensures forall k :: 0 <= k < |parts| ==> sep !in parts[k]
  {
    if |s| == 0 then [""]
    else
      var rest := Split(s[1..], sep);
      if s[0] == sep then [""] + rest
      else [[s[0]] + rest[0]] + rest[1..]
  }

  /** The pieces put back together with the separator between them. */
  function Join(parts: seq<string>, sep: char): string
    requires |parts| >= 1
  {
    if |parts| == 1 then parts[0] else parts[0] + [sep] + Join(parts[1..], sep)
  }

  lemma {:induction false} SplitPrefix(a: string, t: string, sep: char)
    requires sep !in a
    ensures Split(a + t, sep) == [a + Split(t, sep)[0]] + Split(t, sep)[1..]
  {
    if |a| > 0 {
      assert (a + t)[1..] == a[1..] + t;
      assert a[0] != sep by { assert a[0] in a; }
      SplitPrefix(a[1..], t, sep);
      assert [a[0]] + (a[1..] + Split(t, sep)[0]) == a + Split(t, sep)[0];
    } else {
      var parts := Split(t, sep);
      assert a + t == t && a + parts[0] == parts[0];
      assert parts == [parts[0]] + parts[1..];
    }
  }

  /** Splitting undoes joining pieces that do not contain the separator. */
  lemma {:induction false} SplitJoin(parts: seq<string>, sep: char)
    requires |parts| >= 1
    requires forall k :: 0 <= k < |parts| ==> sep !in parts[k]
    ensures Split(Join(parts, sep), sep) == parts
  {
    if |parts| == 1 {
      SplitPrefix(parts[0], "", sep);
      assert parts[0] + "" == parts[0];
    } else {
      var rest := Join(parts[1..], sep);
      SplitJoin(parts[1..], sep);
      assert parts[0] + [sep] + rest == parts[0] + ([sep] + rest);
      SplitPrefix(parts[0], [sep] + rest, sep);
      assert ([sep] + rest)[1..] == rest;
      assert parts[0] + "" == parts[0];
    }
  }

  // ---------------------------------------------------------------- usize

  function DigitChar(d: nat): char
    requires d < 10
  {
    (('0' as int) + d) as char
  }

  /** The value of a string of decimal digits, most significant first. */
  function DigitsValue(s: string): nat
    requires AllDigits(s)
  {
    if |s| == 0 then 0 else DigitsValue(s[..|s| - 1]) * 10 + ((s[|s| - 1] as int) - ('0' as int))
  }

  /** The text after an optional leading `+`. */
  function Unsigned(s: string): string {
    if |s| > 0 && s[0] == '+' then s[1..] else s
  }

  /** `usize::from_str`: an optional `+`, then one or more ASCII digits, in range. */
  function ParseUsize(s: string): (r: Option<nat>)
    ensures r.Some? <==>
              |Unsigned(s)| > 0 && AllDigits(Unsigned(s)) && DigitsValue(Unsigned(s)) < USIZE_LIMIT
    ensures r.Some? ==> r.value == DigitsValue(Unsigned(s)) && r.value < USIZE_LIMIT
    ensures r.Some? ==> |s| > 0 && (IsDigit(s[0]) || s[0] == '+')
  {
    var digits := Unsigned(s);
    if |digits| > 0 && AllDigits(digits) && DigitsValue(digits) < USIZE_LIMIT
    then Some(DigitsValue(digits))
    else None
  }

  /** Any character other than a digit, except a leading `+`, makes the parse fail. */
  lemma ParseRejectsNonDigit(s: string, k: nat)
    requires k < |s| && !IsDigit(s[k]) && !(k == 0 && s[k] == '+')
    ensures ParseUsize(s) == None
  {
    var d := Unsigned(s);
    if |s| > 0 && s[0] == '+' {
      assert d[k - 1] == s[k];
    } else {
      assert d[k] == s[k];
    }
  }

  /** The decimal rendering of `n`, without sign or leading zeros. */
  function ShowNat(n: nat): (s: string)
    ensures |s| > 0 && AllDigits(s)
  {
    if n < 10 then [DigitChar(n)] else ShowNat(n / 10) + [DigitChar(n % 10)]
  }

  lemma {:induction false} ShowNatValue(n: nat)
    ensures DigitsValue(ShowNat(n)) == n
  {
    if n >= 10 {
      ShowNatValue(n / 10);
      var s := ShowNat(n);
      assert s[..|s| - 1] == ShowNat(n / 10);
    }
  }

  /** Parsing reads back every `usize` that decimal rendering writes. */
  lemma ParseShowNat(n: nat)
    requires n < USIZE_LIMIT
    ensures ParseUsize(ShowNat(n)) == Some(n)
  {
    ShowNatValue(n);
  }

  // ---------------------------------------------------------------- paths

  /** The text after the last `/` of a path that does not end in `/`. */
  function LastSegment(path: string): (name: string)
    ensures '/' !in name
  {
    if |path| == 0 || path[|path| - 1] == '/' then ""
    else LastSegment(path[..|path| - 1]) + [path[|path| - 1]]
  }

  /** `Path::file_name`, with trailing separators ignored; empty when there is none. */
  function FileName(path: string): (name: string)
    ensures '/' !in name
  {
    if |path| > 0 && path[|path| - 1] == '/' then FileName(path[..|path| - 1]) else LastSegment(path)
  }

  /** The position of the last `.` in `name`. */
  function LastDot(name: string): (r: Option<nat>)
    ensures r.Some? ==> r.value < |name| && name[r.value] == '.' && '.' !in name[r.value + 1..]
    ensures r.None? ==> '.' !in name
  {
    if |name| == 0 then None
    else if name[|name| - 1] == '.' then Some(|name| - 1)
    else
      var r := LastDot(name[..|name| - 1]);
      assert name == name[..|name| - 1] + [name[|name| - 1]];
      assert r.Some? ==> name[r.value + 1..] == name[..|name| - 1][r.value + 1..] + [name[|name| - 1]];
      r
  }

  /** `Path::extension`: what follows the last `.` of the file name, unless that `.` is its
      first character or the name is `..`. */
  function Extension(path: string): (r: Option<string>)
    ensures r.Some? ==> '.' !in r.value && '/' !in r.value
    ensures r.None? <==> FileName(path) == ".." || LastDot(FileName(path)) in {None, Some(0)}
    ensures r.Some? ==>
              var name := FileName(path);
              |r.value| < |name| - 1 && name[|name| - |r.value| - 1] == '.'
              && r.value == name[|name| - |r.value|..]
  {
    var name := FileName(path);
    if name == ".." then None
    else match LastDot(name)
      case None => None
      case Some(k) =>
        if k == 0 then None
        else
          assert forall c :: c in name[k + 1..] ==> c in name;
          Some(name[k + 1..])
  }

  lemma {:induction false} LastSegmentOf(dir: string, name: string)
    requires dir == [] || dir[|dir| - 1] == '/'
    requires '/' !in name
    ensures LastSegment(dir + name) == name
  {
    if name != [] {
      var p := dir + name;
      assert p[..|p| - 1] == dir + name[..|name| - 1];
      assert name[|name| - 1] in name;
      LastSegmentOf(dir, name[..|name| - 1]);
      assert name == name[..|name| - 1] + [name[|name| - 1]];
    } else {
      assert dir + name == dir;
    }
  }

  lemma {:induction false} LastDotOf(stem: string, ext: string)
    requires '.' !in ext
    ensures LastDot(stem + "." + ext) == Some(|stem|)
  {
    if ext != [] {
      var n := stem + "." + ext;
      assert n[..|n| - 1] == stem + "." + ext[..|ext| - 1];
      assert ext[|ext| - 1] in ext;
      LastDotOf(stem, ext[..|ext| - 1]);
    }
  }

  /** The extension of `dir/stem.ext` is `ext`, when `stem` is not empty and `ext` has no dot. */
  lemma ExtensionOf(dir: string, stem: string, ext: string)
    requires dir == [] || dir[|dir| - 1] == '/'
    requires stem != [] && '/' !in stem && '/' !in ext && '.' !in ext
    requires stem + "." + ext != ".."
    ensures Extension(dir + (stem + "." + ext)) == Some(ext)
  {
    var name := stem + "." + ext;
    assert '/' !in name by {
      forall i | 0 <= i < |name| ensures name[i] != '/' {
        if i < |stem| { assert name[i] == stem[i]; }
        else if i > |stem| { assert name[i] == ext[i - |stem| - 1]; }
      }
    }
    var p := dir + name;
    assert p[|p| - 1] == name[|name| - 1];
    LastSegmentOf(dir, name);
    assert FileName(p) == name;
    LastDotOf(stem, ext);
    assert name[|stem| + 1..] == ext;
  }

  /** The file name of `dir/name` is `name`. */
  lemma FileNameOf(dir: string, name: string)
    requires dir == [] || dir[|dir| - 1] == '/'
    requires name != [] && '/' !in name
    ensures FileName(dir + name) == name
  {
    var p := dir + name;
    assert p[|p| - 1] == name[|name| - 1] && name[|name| - 1] in name;
    LastSegmentOf(dir, name);
  }

  /** A file name without a dot, one whose only dot is its first character, and `..` have
      no extension. */
  lemma ExtensionNone(dir: string, name: string)
    requires dir == [] || dir[|dir| - 1] == '/'
    requires name != [] && '/' !in name
    requires '.' !in name || name == ".." || (name[0] == '.' && '.' !in name[1..])
    ensures Extension(dir + name) == None
  {
    FileNameOf(dir, name);
    if name != ".." && '.' in name {
      forall j | 1 <= j < |name|
        ensures name[j] != '.'
      {
        assert name[j] == name[1..][j - 1];
      }
      assert LastDot(name) == Some(0);
    }
  }
}
