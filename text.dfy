/** Character classes and the string operations of the .NET base library that the
    modelled programs use: `char.IsWhiteSpace`, `string.Trim`, `string.Split` and joining
    with a separator. */
module Text {

  /** `char.IsWhiteSpace`, restricted to the ASCII and Latin-1 white-space characters. */
  predicate IsWhiteSpace(c: char) {
    c == ' ' || ('\t' <= c <= '\r') || c == '\U{85}' || c == '\U{A0}'
  }

  /** The white-space characters above as a set (what `string.Split` splits on when it is
      given no separators). */
  const WhiteSpace: set<char> := {' ', '\t', '\n', '\U{B}', '\U{C}', '\r', '\U{85}', '\U{A0}'}

  lemma WhiteSpaceIsIsWhiteSpace(c: char)
    ensures c in WhiteSpace <==> IsWhiteSpace(c)
  {
  }

  /** Every character of `s` is white space (true of the empty string). */
  predicate IsBlank(s: string) {
    forall i :: 0 <= i < |s| ==> IsWhiteSpace(s[i])
  }

  /** `string.IsNullOrWhiteSpace`, with `None` for null. */
  predicate IsNullOrWhiteSpace(s: Option<string>): (b: bool)
    ensures s.Some? && s.value != [] && !IsWhiteSpace(s.value[0]) ==> !b
  {
    s.None? || IsBlank(s.value)
  }

  /** A nullable value: `None` stands for null. */
  datatype Option<+T> = None | Some(value: T)

  predicate IsAsciiLetter(c: char) {
    'a' <= c <= 'z' || 'A' <= c <= 'Z'
  }

  predicate IsDigit(c: char) {
    '0' <= c <= '9'
  }

  /** The regular-expression class `[a-zA-Z0-9_]`. */
  predicate IsWordChar(c: char) {
    IsAsciiLetter(c) || IsDigit(c) || c == '_'
  }

  /** `char.IsUpper`, restricted to the Latin and basic Cyrillic alphabets. */
  predicate IsUpper(c: char) {
    'A' <= c <= 'Z' || 'А' <= c <= 'Я' || c == 'Ё'
  }

  /** `char.IsLower`, restricted to the Latin and basic Cyrillic alphabets. */
  predicate IsLower(c: char) {
    'a' <= c <= 'z' || 'а' <= c <= 'я' || c == 'ё'
  }

  /** `s` without its leading white space (`string.TrimStart()`). */
  function TrimStart(s: string): (r: string)
  {
    if s != [] && IsWhiteSpace(s[0]) then TrimStart(s[1..]) else s
  }

  /** `s` without its trailing white space (`string.TrimEnd()`). */
  function TrimEnd(s: string): (r: string)
  {
    if s != [] && IsWhiteSpace(s[|s| - 1]) then TrimEnd(s[..|s| - 1]) else s
  }

  /** `TrimStart` drops exactly the white space before the first character that is not
      white space. */
  lemma {:induction false} TrimStartDropsLeadingWhite(s: string)
    ensures var k := |s| - |TrimStart(s)|;
            0 <= k <= |s| && TrimStart(s) == s[k..]
            && (forall i :: 0 <= i < k ==> IsWhiteSpace(s[i]))
            && (k < |s| ==> !IsWhiteSpace(s[k]))
  {
    if s != [] && IsWhiteSpace(s[0]) {
      TrimStartDropsLeadingWhite(s[1..]);
      var k := |s| - |TrimStart(s)|;
      assert s[1..][k - 1..] == s[k..];
      forall i | 1 <= i < k ensures IsWhiteSpace(s[i]) {
        assert s[1..][i - 1] == s[i];
      }
    }
  }

  /** `TrimEnd` drops exactly the white space after the last character that is not white
      space. */
  lemma {:induction false} TrimEndDropsTrailingWhite(s: string)
    ensures var n := |TrimEnd(s)|;
            n <= |s| && TrimEnd(s) == s[..n]
            && (forall i :: n <= i < |s| ==> IsWhiteSpace(s[i]))
            && (0 < n ==> !IsWhiteSpace(s[n - 1]))
  {
    if s != [] && IsWhiteSpace(s[|s| - 1]) {
      TrimEndDropsTrailingWhite(s[..|s| - 1]);
      var n := |TrimEnd(s)|;
      assert s[..|s| - 1][..n] == s[..n];
      forall i | n <= i < |s| - 1 ensures IsWhiteSpace(s[i]) {
        assert s[..|s| - 1][i] == s[i];
      }
    }
  }

  /** `string.Trim()`: the part of `s` left after removing white space at both ends. */
  function Trim(s: string): (r: string)
    ensures |r| <= |s|
    ensures r != [] ==> !IsWhiteSpace(r[0]) && !IsWhiteSpace(r[|r| - 1])
  {
    TrimStartDropsLeadingWhite(s);
    TrimEndDropsTrailingWhite(TrimStart(s));
    TrimEnd(TrimStart(s))
  }

  /** `Trim` keeps the slice of `s` between its leading and its trailing white space. */
  lemma TrimIsInnerSlice(s: string)
    ensures var k := |s| - |TrimStart(s)|; var n := |Trim(s)|;
            0 <= k && k + n <= |s| && Trim(s) == s[k..k + n]
            && (forall i :: 0 <= i < k || k + n <= i < |s| ==> IsWhiteSpace(s[i]))
            && (0 < n ==> !IsWhiteSpace(s[k]) && !IsWhiteSpace(s[k + n - 1]))
  {
    var t := TrimStart(s);
    TrimStartDropsLeadingWhite(s);
    TrimEndDropsTrailingWhite(t);
    var k := |s| - |t|;
    var n := |Trim(s)|;
    assert t[..n] == s[k..k + n];
    forall i | k + n <= i < |s| ensures IsWhiteSpace(s[i]) {
      assert t[i - k] == s[i];
    }
  }

  /** A trimmed string with no white space at its ends is its own trim. */
  lemma TrimOfTrimmed(s: string)
    requires s == [] || (!IsWhiteSpace(s[0]) && !IsWhiteSpace(s[|s| - 1]))
    ensures Trim(s) == s
  {
  }

  /** `p` holds none of the characters in `seps`. */
  predicate Free(p: string, seps: set<char>) {
    forall i :: 0 <= i < |p| ==> p[i] !in seps
  }

  /** The number of characters of `s` that belong to `seps`. */
  function Count(s: string, seps: set<char>): nat
  {
    if s == [] then 0 else (if s[0] in seps then 1 else 0) + Count(s[1..], seps)
  }

  /** `s.Split(seps)`: the pieces of `s` between the separator characters, empty pieces
      included, so that there is always one piece more than there are separators. */
  function SplitAny(s: string, seps: set<char>): (parts: seq<string>)
    ensures |parts| >= 1
  {
    if s == [] then [""]
    else
      var rest := SplitAny(s[1..], seps);
      if s[0] in seps then [""] + rest else [[s[0]] + rest[0]] + rest[1..]
  }

  /** `s.Split(c)`. */
  function Split(s: string, c: char): (parts: seq<string>)
    ensures |parts| == Count(s, {c}) + 1
  {
    SplitAnyCount(s, {c});
    SplitAny(s, {c})
  }

  /** `string.Join(sep, parts)`: the parts with one `sep` between each two neighbours. */
  function Join(parts: seq<string>, sep: char): (r: string)
    ensures forall k :: 0 <= k < |parts| ==> |parts[k]| <= |r|
  {
    if parts == [] then ""
    else if |parts| == 1 then parts[0]
    else parts[0] + [sep] + Join(parts[1..], sep)
  }

  /** Splitting gives one piece more than there are separators. */
  lemma {:induction false} SplitAnyCount(s: string, seps: set<char>)
    ensures |SplitAny(s, seps)| == Count(s, seps) + 1
  {
    if s != [] {
      SplitAnyCount(s[1..], seps);
    }
  }

  /** No piece of a split holds a separator. */
  lemma {:induction false} SplitAnyFree(s: string, seps: set<char>)
    ensures forall k :: 0 <= k < |SplitAny(s, seps)| ==> Free(SplitAny(s, seps)[k], seps)
  {
    if s != [] {
      SplitAnyFree(s[1..], seps);
    }
  }

  /** Splitting a separator-free prefix glued to `t` glues the prefix to the first piece of `t`. */
  lemma {:induction false} SplitAnyFreePrefix(p: string, t: string, seps: set<char>)
    requires Free(p, seps)
    ensures SplitAny(p + t, seps) == [p + SplitAny(t, seps)[0]] + SplitAny(t, seps)[1..]
  {
    if p != [] {
      assert (p + t)[1..] == p[1..] + t;
      SplitAnyFreePrefix(p[1..], t, seps);
      assert [p[0]] + (p[1..] + SplitAny(t, seps)[0]) == p + SplitAny(t, seps)[0];
    } else {
      var parts := SplitAny(t, seps);
      assert p + t == t && p + parts[0] == parts[0];
      assert parts == [parts[0]] + parts[1..];
    }
  }

  /** Joining the pieces of a split with the separator gives back the string. */
  lemma {:induction false} JoinSplit(s: string, c: char)
    ensures Join(Split(s, c), c) == s
  {
    if s != [] {
      JoinSplit(s[1..], c);
      var rest := Split(s[1..], c);
      if s[0] == c {
        assert Split(s, c) == [""] + rest;
        assert ([""] + rest)[1..] == rest;
      } else {
        assert Split(s, c) == [[s[0]] + rest[0]] + rest[1..];
        if |rest| == 1 {
          assert Join(rest, c) == rest[0];
        } else {
          assert ([[s[0]] + rest[0]] + rest[1..])[1..] == rest[1..];
        }
      }
    }
  }

  /** Splitting separator-free pieces joined with the separator gives back the pieces. */
  lemma {:induction false} SplitJoin(parts: seq<string>, c: char)
    requires |parts| >= 1
    requires forall k :: 0 <= k < |parts| ==> Free(parts[k], {c})
    ensures Split(Join(parts, c), c) == parts
  {
    if |parts| > 1 {
      var rest := Join(parts[1..], c);
      SplitJoin(parts[1..], c);
      assert Join(parts, c) == parts[0] + ([c] + rest);
      SplitAnyFreePrefix(parts[0], [c] + rest, {c});
      assert ([c] + rest)[1..] == rest;
      assert SplitAny([c] + rest, {c}) == [""] + parts[1..];
      assert parts[0] + "" == parts[0];
      assert parts == [parts[0]] + parts[1..];
    } else {
      SplitAnyFreePrefix(parts[0], "", {c});
      assert parts[0] + "" == parts[0];
    }
  }

  /** Joining one more piece appends the separator and that piece. */
  lemma {:induction false} JoinSnoc(parts: seq<string>, x: string, sep: char)
    requires |parts| >= 1
    ensures Join(parts + [x], sep) == Join(parts, sep) + [sep] + x
  {
    if |parts| == 1 {
      assert (parts + [x])[1..] == [x];
    } else {
      assert (parts + [x])[1..] == parts[1..] + [x];
      JoinSnoc(parts[1..], x, sep);
    }
  }

  // ---- prefixes of sequences ----

  /** The whole of a sequence is its longest prefix. */
  lemma TakeAll<T>(s: seq<T>)
    ensures s[..|s|] == s
  {
  }

  /** A prefix of a prefix is a prefix, with the same elements. */
  lemma PrefixOfPrefix<T>(s: seq<T>, i: nat, j: nat)
    requires i <= j <= |s|
    ensures s[..j][..i] == s[..i]
    ensures i < j ==> s[..j][i] == s[i]
  {
  }

  /** A prefix is the shorter prefix followed by its last element. */
  lemma TakeSnoc<T>(s: seq<T>, k: nat)
    requires 0 < k <= |s|
    ensures s[..k - 1] + [s[k - 1]] == s[..k]
  {
    assert (s[..k - 1] + [s[k - 1]])[k - 1] == s[..k][k - 1];
  }
}
