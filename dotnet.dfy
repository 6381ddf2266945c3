/**
  The pieces of the .NET library that Fonctions.cs relies on, seen on ASCII:
  char.IsLetter, char.IsDigit, char.IsWhiteSpace, char/string ToUpper, the C#
  remainder operator `%`, 32-bit `int` arithmetic, String.Trim() and
  String.Split(new[] { ' ' }, StringSplitOptions.RemoveEmptyEntries).
 */
module DotNet {

  /** What a C# method hands back: its return value, or the exception it throws. */
  datatype Result<T> = Ok(value: T) | Thrown(exception: Exception)

  /** The exceptions the modelled code can raise. */
  datatype Exception = DivideByZero

  datatype Option<T> = None | Some(value: T)

  /** char.IsLetter, restricted to the ASCII letters. */
  predicate IsLetter(c: char) {
    'A' <= c <= 'Z' || 'a' <= c <= 'z'
  }

  predicate IsUpperLetter(c: char) {
    'A' <= c <= 'Z'
  }

  /** char.IsDigit, restricted to the ASCII digits. */
  predicate IsDigit(c: char) {
    '0' <= c <= '9'
  }

  /** char.IsWhiteSpace: the characters String.Trim() removes. */
  predicate IsWhiteSpace(c: char) {
    c == ' ' || 9 <= c as int <= 13 || c as int == 0x85 || c as int == 0xA0
    || c as int == 0x1680 || 0x2000 <= c as int <= 0x200A
    || c as int == 0x2028 || c as int == 0x2029 || c as int == 0x202F
    || c as int == 0x205F || c as int == 0x3000
  }

  /** n.ToString() for an int n of one digit. */
  function DigitString(n: int): (s: string)
    requires 0 <= n <= 9
    ensures |s| == 1 && IsDigit(s[0])
    ensures s[0] as int - '0' as int == n
  {
    [('0' as int + n) as char]
  }

  /** int.Parse(s) for a string of one ASCII digit; it undoes DigitString. */
  function ParseDigit(s: string): (n: int)
    requires |s| == 1 && IsDigit(s[0])
    ensures 0 <= n <= 9 && DigitString(n) == s
  {
    s[0] as int - '0' as int
  }

  /** char.ToUpper on ASCII: a..z become A..Z, everything else is left alone. */
  function ToUpper(c: char): (r: char)
    ensures IsLetter(c) ==> IsUpperLetter(r)
    ensures IsLetter(r) == IsLetter(c)
    ensures !('a' <= c <= 'z') ==> r == c
    ensures 'a' <= c <= 'z' ==> r as int - 'A' as int == c as int - 'a' as int
  {
    if 'a' <= c <= 'z' then (c as int - 32) as char else c
  }

  /** string.ToUpper(): ToUpper on every character. */
  function Upper(s: string): (r: string)
    ensures |r| == |s|
  {
    if s == [] then [] else [ToUpper(s[0])] + Upper(s[1..])
  }

  /** Upper-casing works piece by piece. */
  lemma {:induction false} UpperAppend(a: string, b: string)
    ensures Upper(a + b) == Upper(a) + Upper(b)
  {
    if a == [] {
      assert a + b == b;
    } else {
      assert (a + b)[1..] == a[1..] + b;
      UpperAppend(a[1..], b);
    }
  }

  /** Character i of Upper(s) is ToUpper(s[i]). */
  lemma {:induction false} UpperAt(s: string)
    ensures forall i :: 0 <= i < |s| ==> Upper(s)[i] == ToUpper(s[i])
  {
    if s != [] {
      UpperAt(s[1..]);
    }
  }

  lemma AppendAssoc<T>(a: seq<T>, b: seq<T>, c: seq<T>)
    ensures (a + b) + c == a + (b + c)
  {
  }

  /** C#'s `a % 26`: the remainder of division truncated toward zero, so it takes
      the sign of the dividend (unlike Dafny's Euclidean `%`). Every `%` in
      Fonctions.cs divides by 26. */
  function Rem26(a: int): (r: int)
    ensures -26 < r < 26
    ensures (a - r) % 26 == 0
    ensures a >= 0 ==> 0 <= r
    ensures a < 0 ==> r <= 0
  {
    if a >= 0 then a % 26 else -((-a) % 26)
  }

  const TwoTo31: int := 0x8000_0000

  /** The values of a C# `int`. */
  type Int32 = x: int | -TwoTo31 <= x < TwoTo31

  /** The unchecked 32-bit result of a C# `int` operation whose exact value is x. */
  function Wrap32(x: int): (r: Int32)
    ensures (x - r) % (2 * TwoTo31) == 0
    ensures -TwoTo31 <= x < TwoTo31 ==> r == x
  {
    (x + TwoTo31) % (2 * TwoTo31) - TwoTo31
  }

  /** String.TrimStart(): drops the leading white space. */
  function TrimStart(s: string): (r: string)
    ensures |r| <= |s| && r == s[|s| - |r|..]
    ensures forall k :: 0 <= k < |s| - |r| ==> IsWhiteSpace(s[k])
    ensures r == [] || !IsWhiteSpace(r[0])
  {
    if s != [] && IsWhiteSpace(s[0]) then
      var r := TrimStart(s[1..]);
      assert forall k :: 1 <= k < |s| - |r| ==> s[k] == s[1..][k - 1];
      r
    else s
  }

  /** String.TrimEnd(): drops the trailing white space. */
  function TrimEnd(s: string): (r: string)
    ensures |r| <= |s| && r == s[..|r|]
    ensures forall k :: |r| <= k < |s| ==> IsWhiteSpace(s[k])
    ensures r == [] || !IsWhiteSpace(r[|r| - 1])
  {
    if s != [] && IsWhiteSpace(s[|s| - 1]) then TrimEnd(s[..|s| - 1]) else s
  }

  /** String.Trim(): drops the white space at both ends and keeps what lies
      between, which starts at offset i of s. */
  function Trim(s: string): (r: string)
    ensures r == [] || (!IsWhiteSpace(r[0]) && !IsWhiteSpace(r[|r| - 1]))
    ensures |r| <= |s|
    ensures var i := |TrimEnd(s)| - |r|;
      0 <= i <= |s| - |r| && r == s[i..i + |r|]
      && (forall k :: 0 <= k < i ==> IsWhiteSpace(s[k]))
      && (forall k :: i + |r| <= k < |s| ==> IsWhiteSpace(s[k]))
  {
    TrimMiddle(s);
    TrimStart(TrimEnd(s))
  }

  /** What TrimStart leaves of TrimEnd(s) is the middle of s. */
  lemma TrimMiddle(s: string)
    ensures var t := TrimEnd(s); var r := TrimStart(t); var i := |t| - |r|;
      0 <= i <= |s| - |r| && r == s[i..i + |r|]
      && (forall k :: 0 <= k < i ==> IsWhiteSpace(s[k]))
  {
    var t := TrimEnd(s);
    var r := TrimStart(t);
    var i := |t| - |r|;
    assert r == s[i..i + |r|] by {
      assert t == s[..|t|] && r == t[i..];
    }
    forall k | 0 <= k < i ensures IsWhiteSpace(s[k]) {
      assert IsWhiteSpace(t[k]) && t[k] == s[k];
    }
  }

  /** The word that starts s: its characters up to the first ' '. */
  function Word(s: string): (w: string)
    ensures |w| <= |s| && w == s[..|w|]
    ensures ' ' !in w
    ensures |w| < |s| ==> s[|w|] == ' '
    ensures s != [] && s[0] != ' ' ==> w != []
  {
    if s == [] || s[0] == ' ' then [] else [s[0]] + Word(s[1..])
  }

  /** What follows Word(s) in s: empty, or starting with ' '. */
  function AfterWord(s: string): (t: string)
    ensures Word(s) + t == s
  {
    if s == [] || s[0] == ' ' then s else AfterWord(s[1..])
  }

  /** The parts, one after the other, with nothing between them. */
  function Join(parts: seq<string>): string {
    if parts == [] then [] else parts[0] + Join(parts[1..])
  }

  /** s without its spaces. */
  function RemoveSpaces(s: string): string {
    if s == [] then [] else (if s[0] == ' ' then [] else [s[0]]) + RemoveSpaces(s[1..])
  }

  lemma {:induction false} RemoveSpacesAppend(a: string, b: string)
    ensures RemoveSpaces(a + b) == RemoveSpaces(a) + RemoveSpaces(b)
  {
    if a == [] {
      assert a + b == b;
    } else {
      assert (a + b)[0] == a[0] && (a + b)[1..] == a[1..] + b;
      RemoveSpacesAppend(a[1..], b);
      AppendAssoc(if a[0] == ' ' then [] else [a[0]], RemoveSpaces(a[1..]), RemoveSpaces(b));
    }
  }

  lemma {:induction false} RemoveSpacesNone(w: string)
    requires ' ' !in w
    ensures RemoveSpaces(w) == w
  {
    if w != [] {
      assert w[0] in w && forall c :: c in w[1..] ==> c in w;
      RemoveSpacesNone(w[1..]);
    }
  }

  /** s.Split(new[] { ' ' }, StringSplitOptions.RemoveEmptyEntries): the maximal
      runs of characters other than ' ', in order. Joined, they give s without
      its spaces. */
  function Split(s: string): (parts: seq<string>)
    ensures forall p :: p in parts ==> p != [] && ' ' !in p
    ensures Join(parts) == RemoveSpaces(s)
    decreases |s|
  {
    if s == [] then []
    else if s[0] == ' ' then Split(s[1..])
    else
      var w, rest := Word(s), AfterWord(s);
      var parts := Split(rest);
      RemoveSpacesAppend(w, rest);
      RemoveSpacesNone(w);
      assert ([w] + parts)[1..] == parts;
      [w] + parts
  }

  /** s has no character but ' '. */
  predicate Spaces(s: string) {
    forall k :: 0 <= k < |s| ==> s[k] == ' '
  }

  /** A word followed by nothing or by a space is read back whole. */
  lemma {:induction false} WordThen(w: string, rest: string)
    requires ' ' !in w
    requires rest == [] || rest[0] == ' '
    ensures Word(w + rest) == w && AfterWord(w + rest) == rest
  {
    if w == [] {
      assert w + rest == rest;
    } else {
      assert (w + rest)[0] == w[0] && (w + rest)[1..] == w[1..] + rest;
      assert w[0] in w;
      assert forall c :: c in w[1..] ==> c in w;
      WordThen(w[1..], rest);
    }
  }

  /** A word without spaces splits into itself. */
  lemma SplitWord(w: string)
    requires w != [] && ' ' !in w
    ensures Split(w) == [w]
  {
    assert w[0] in w;
    assert w + [] == w;
    WordThen(w, []);
  }

  /** A word and the space after it come off the front as one part. */
  lemma SplitWordSpace(w: string, rest: string)
    requires w != [] && ' ' !in w
    ensures Split(w + [' '] + rest) == [w] + Split(rest)
  {
    var s := w + [' '] + rest;
    assert s == w + ([' '] + rest);
    assert s[0] == w[0] && w[0] in w;
    WordThen(w, [' '] + rest);
    assert ([' '] + rest)[1..] == rest;
  }

  /** Spaces in front of s change nothing to its parts. */
  lemma {:induction false} SplitLeadingSpaces(sp: string, s: string)
    requires Spaces(sp)
    ensures Split(sp + s) == Split(s)
  {
    if sp != [] {
      assert (sp + s)[1..] == sp[1..] + s;
      SplitLeadingSpaces(sp[1..], s);
    } else {
      assert sp + s == s;
    }
  }

  /** Spaces at the end of s change nothing to its parts. */
  lemma {:induction false} SplitTrailingSpaces(s: string, sp: string)
    requires Spaces(sp)
    ensures Split(s + sp) == Split(s)
    decreases |s|
  {
    if s == [] {
      assert s + sp == sp + [];
      SplitLeadingSpaces(sp, []);
    } else if s[0] == ' ' {
      assert (s + sp)[1..] == s[1..] + sp;
      SplitTrailingSpaces(s[1..], sp);
    } else {
      var w, t := Word(s), AfterWord(s);
      assert s + sp == w + (t + sp);
      assert ' ' !in w;
      assert t + sp == [] || (t + sp)[0] == ' ' by {
        if t != [] {
          assert s[|w|] == ' ' && t[0] == s[|w|];
        } else {
          assert t + sp == sp;
        }
      }
      WordThen(w, t + sp);
      assert s == w + t;
      WordThen(w, t);
      assert (s + sp)[0] == s[0];
      SplitTrailingSpaces(t, sp);
    }
  }

  /** The only white space in s is ' '. */
  predicate SpaceIsOnlyWhite(s: string) {
    forall k :: 0 <= k < |s| && IsWhiteSpace(s[k]) ==> s[k] == ' '
  }

  /** Trimming only spaces at the front changes nothing to the parts Split finds. */
  lemma {:induction false} SplitTrimStart(s: string)
    requires SpaceIsOnlyWhite(s)
    ensures Split(TrimStart(s)) == Split(s)
  {
    if s != [] && IsWhiteSpace(s[0]) {
      assert s[0] == ' ';
      SplitTrimStart(s[1..]);
    }
  }

  /** Trimming only spaces at the end changes nothing to the parts Split finds. */
  lemma {:induction false} SplitTrimEnd(s: string)
    requires SpaceIsOnlyWhite(s)
    ensures SpaceIsOnlyWhite(TrimEnd(s))
    ensures Split(TrimEnd(s)) == Split(s)
  {
    if s != [] && IsWhiteSpace(s[|s| - 1]) {
      var init := s[..|s| - 1];
      assert s[|s| - 1] == ' ' && s == init + [' '];
      assert Spaces([' ']);
      SplitTrailingSpaces(init, [' ']);
      SplitTrimEnd(init);
    }
  }

  /** Trimming only spaces changes nothing to the parts Split finds. */
  lemma SplitTrim(s: string)
    requires SpaceIsOnlyWhite(s)
    ensures Split(Trim(s)) == Split(s)
  {
    SplitTrimEnd(s);
    SplitTrimStart(TrimEnd(s));
  }
}
