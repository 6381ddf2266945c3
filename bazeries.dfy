/**
  Fonctions.CryptBazeries and Fonctions.DecryptBazeries: a shift of every
  letter of the upper-cased text by the square of the key, computed with C#
  `int` arithmetic (32 bits, wrapping) and the truncated remainder `%`.
 */
module Bazeries {
  import opened DotNet

  /** The largest key whose square, shifted by a letter offset, stays within
      a C# `int`. */
  const MaxKey: int := 46340

  /** `int decalage = cle * cle;`. */
  function Decalage(cle: Int32): Int32 {
    Wrap32(cle * cle)
  }

  /** For a key of at most 46340 in absolute value, the shift is the square
      of the key, with no wrap-around. */
  lemma DecalageSquare(cle: Int32)
    requires -MaxKey <= cle <= MaxKey
    ensures 0 <= Decalage(cle) == cle * cle <= MaxKey * MaxKey
  {
    SquareBound(cle);
  }

  /** The Euclidean remainder is the only remainder in 0..25. */
  lemma ModUnique(x: int, q: int, r: int)
    requires x == 26 * q + r && 0 <= r < 26
    ensures x % 26 == r
  {
  }

  /** `(char)(((c - 'A' + decalage) % 26) + 'A')`. */
  function EncryptChar(c: char, d: Int32): char {
    (Rem26(Wrap32(c as int - 'A' as int + d)) + 'A' as int) as char
  }

  /** `(char)(((c - 'A' - decalage + 26) % 26) + 'A')`. */
  function DecryptChar(c: char, d: Int32): char {
    (Rem26(Wrap32(c as int - 'A' as int - d + 26)) + 'A' as int) as char
  }

  /** What one iteration of either loop appends for c. */
  function Shift(c: char, d: Int32, decrypt: bool): char {
    if !IsLetter(c) then c
    else if decrypt then DecryptChar(c, d)
    else EncryptChar(c, d)
  }

  /** What the loop builds from the upper-cased text u. */
  function Transform(u: string, d: Int32, decrypt: bool): (r: string)
    ensures |r| == |u|
  {
    if u == [] then [] else [Shift(u[0], d, decrypt)] + Transform(u[1..], d, decrypt)
  }

  /** The string CryptBazeries(texte, cle) returns. */
  function BazeriesEncrypt(texte: string, cle: Int32): string {
    Transform(Upper(texte), Decalage(cle), false)
  }

  /** The string DecryptBazeries(texte, cle) returns. */
  function BazeriesDecrypt(texte: string, cle: Int32): string {
    Transform(Upper(texte), Decalage(cle), true)
  }

  /** Character k of Transform(u) is the shift of u[k]. */
  lemma {:induction false} TransformAt(u: string, d: Int32, decrypt: bool)
    ensures forall k :: 0 <= k < |u| ==> Transform(u, d, decrypt)[k] == Shift(u[k], d, decrypt)
  {
    if u != [] {
      TransformAt(u[1..], d, decrypt);
      assert forall k :: 1 <= k < |u| ==> Transform(u, d, decrypt)[k] == Transform(u[1..], d, decrypt)[k - 1];
    }
  }

  /** Two strings of the same length that agree character by character are equal. */
  lemma TransformEqual(u: string, r: string, d: Int32, decrypt: bool)
    requires |r| == |u|
    requires forall k :: 0 <= k < |u| ==> r[k] == Shift(u[k], d, decrypt)
    ensures r == Transform(u, d, decrypt)
  {
    TransformAt(u, d, decrypt);
  }

  /** With a shift d in 0..2^31 - 26, an upper-case letter c is moved d
      places forward around the alphabet. */
  lemma EncryptCharShape(c: char, d: Int32)
    requires IsUpperLetter(c) && 0 <= d <= MaxKey * MaxKey
    ensures IsUpperLetter(EncryptChar(c, d))
    ensures EncryptChar(c, d) as int - 'A' as int == (c as int - 'A' as int + d) % 26
  {
  }

  /** With a shift d in 0..26, the letter comes back d places back around the
      alphabet; a larger shift can leave A..Z. */
  lemma DecryptCharShape(c: char, d: Int32)
    requires IsUpperLetter(c) && 0 <= d <= 26
    ensures IsUpperLetter(DecryptChar(c, d))
    ensures DecryptChar(c, d) as int - 'A' as int == (c as int - 'A' as int - d) % 26
  {
  }

  /** For every key, CryptBazeries and DecryptBazeries keep the length and
      copy every non-letter of the text to its position. */
  lemma KeepsShape(texte: string, cle: Int32)
    ensures |BazeriesEncrypt(texte, cle)| == |texte| && |BazeriesDecrypt(texte, cle)| == |texte|
    ensures forall k :: 0 <= k < |texte| && !IsLetter(texte[k]) ==>
      BazeriesEncrypt(texte, cle)[k] == texte[k] && BazeriesDecrypt(texte, cle)[k] == texte[k]
  {
    var u, d := Upper(texte), Decalage(cle);
    UpperAt(texte);
    TransformAt(u, d, false);
    TransformAt(u, d, true);
  }

  /** For a key of at most 46340 in absolute value, CryptBazeries keeps the
      length, copies every non-letter of the text, and moves every letter of
      the upper-cased text cle * cle places forward around the alphabet. */
  lemma EncryptShape(texte: string, cle: Int32)
    requires -MaxKey <= cle <= MaxKey
    ensures |BazeriesEncrypt(texte, cle)| == |texte|
    ensures forall k :: 0 <= k < |texte| && !IsLetter(texte[k]) ==>
      BazeriesEncrypt(texte, cle)[k] == texte[k]
    ensures forall k :: 0 <= k < |texte| && IsLetter(texte[k]) ==>
      IsUpperLetter(BazeriesEncrypt(texte, cle)[k])
      && BazeriesEncrypt(texte, cle)[k] as int - 'A' as int
         == (ToUpper(texte[k]) as int - 'A' as int + cle * cle) % 26
  {
    var u, d := Upper(texte), Decalage(cle);
    DecalageSquare(cle);
    UpperAt(texte);
    TransformAt(u, d, false);
    forall k | 0 <= k < |texte| && IsLetter(texte[k])
      ensures IsUpperLetter(BazeriesEncrypt(texte, cle)[k])
      ensures BazeriesEncrypt(texte, cle)[k] as int - 'A' as int
        == (ToUpper(texte[k]) as int - 'A' as int + cle * cle) % 26
    {
      EncryptCharShape(u[k], d);
    }
  }

  /** The square of a key of at most 46340 in absolute value. */
  lemma SquareBound(cle: int)
    requires -MaxKey <= cle <= MaxKey
    ensures 0 <= cle * cle <= MaxKey * MaxKey
  {
    var a := if cle < 0 then -cle else cle;
    assert cle * cle == a * a;
    MulLe(a, a, MaxKey);
    MulLe(MaxKey, a, MaxKey);
  }

  lemma MulLe(a: int, b: int, c: int)
    requires 0 <= a && 0 <= b <= c
    ensures 0 <= a * b <= a * c
  {
    assert a * c - a * b == a * (c - b);
  }

  /** With a shift of at most 26, decrypting an encrypted letter gives it
      back, and so does encrypting a decrypted one. */
  lemma CharRoundTrip(c: char, d: Int32)
    requires IsUpperLetter(c) && 0 <= d <= 26
    ensures DecryptChar(EncryptChar(c, d), d) == c
    ensures EncryptChar(DecryptChar(c, d), d) == c
  {
    var x := c as int - 'A' as int;
    var y := (x + d) % 26;
    assert EncryptChar(c, d) as int - 'A' as int == y;
    var q := (x + d) / 26;
    assert 0 <= q <= 1;
    ModUnique(y - d + 26, 1 - q, x);
    var w := (x - d + 26) % 26;
    assert DecryptChar(c, d) as int - 'A' as int == w;
    var t := (x - d + 26) / 26;
    assert 0 <= t <= 1;
    ModUnique(w + d, 1 - t, x);
  }

  /** The shift of an upper-cased character is undone by the opposite shift. */
  lemma ShiftInverse(c: char, d: Int32, decrypt: bool)
    requires ToUpper(c) == c && 0 <= d <= 26
    ensures Shift(Shift(c, d, decrypt), d, !decrypt) == c
  {
    if IsLetter(c) {
      CharRoundTrip(c, d);
      EncryptCharShape(c, d);
      DecryptCharShape(c, d);
    }
  }

  /** A shift of at most 26 in one direction, then the other, gives the upper-cased text back. */
  lemma TransformInverse(u: string, d: Int32, decrypt: bool)
    requires 0 <= d <= 26 && Upper(u) == u
    ensures Upper(Transform(u, d, decrypt)) == Transform(u, d, decrypt)
    ensures Transform(Transform(u, d, decrypt), d, !decrypt) == u
  {
    var e := Transform(u, d, decrypt);
    TransformAt(u, d, decrypt);
    TransformAt(e, d, !decrypt);
    UpperAt(u);
    UpperAt(e);
    forall k | 0 <= k < |u|
      ensures ToUpper(e[k]) == e[k] && Shift(e[k], d, !decrypt) == u[k]
    {
      assert ToUpper(u[k]) == u[k];
      ShiftInverse(u[k], d, decrypt);
      if IsLetter(u[k]) {
        EncryptCharShape(u[k], d);
        DecryptCharShape(u[k], d);
      }
    }
    assert Transform(e, d, !decrypt) == u;
  }

  /** Upper-casing twice is upper-casing once. */
  lemma UpperUpper(s: string)
    ensures Upper(Upper(s)) == Upper(s)
  {
    UpperAt(s);
    UpperAt(Upper(s));
  }

  /** For a key whose square is at most 26 (-5 to 5), DecryptBazeries undoes
      CryptBazeries: the text comes back upper-cased. */
  lemma RoundTrip(texte: string, cle: Int32)
    requires cle * cle <= 26
    ensures BazeriesDecrypt(BazeriesEncrypt(texte, cle), cle) == Upper(texte)
  {
    SmallKey(cle);
    var u := Upper(texte);
    UpperUpper(texte);
    TransformInverse(u, Decalage(cle), false);
  }

  /** For such a key, CryptBazeries undoes DecryptBazeries as well. */
  lemma RoundTripReverse(texte: string, cle: Int32)
    requires cle * cle <= 26
    ensures BazeriesEncrypt(BazeriesDecrypt(texte, cle), cle) == Upper(texte)
  {
    SmallKey(cle);
    var u := Upper(texte);
    UpperUpper(texte);
    TransformInverse(u, Decalage(cle), true);
  }

  /** A key whose square is at most 26 lies in -5..5 and shifts by its square. */
  lemma SmallKey(cle: Int32)
    requires cle * cle <= 26
    ensures -5 <= cle <= 5 && Decalage(cle) == cle * cle && 0 <= cle * cle
  {
  }

  /** With a shift beyond 26 (and below 2^31 - 26), some letter does not
      survive the round trip: the one encrypted to A, or to B when that one
      is A itself. */
  lemma LostLetter(d: Int32) returns (c: char)
    requires 26 < d <= MaxKey * MaxKey
    ensures IsUpperLetter(c) && DecryptChar(EncryptChar(c, d), d) != c
  {
    var y := if d % 26 == 0 then 1 else 0;
    var k := (y + 26 - d % 26) % 26;
    assert k != 0;
    c := ('A' as int + k) as char;
    EncryptCharShape(c, d);
    var t := (y + 26 - d % 26) / 26;
    ModUnique(k + d, 1 - t + d / 26, y);
    assert EncryptChar(c, d) as int - 'A' as int == y;
    assert Wrap32(y - d + 26) == y - d + 26;
    assert Rem26(y - d + 26) <= 0;
  }

  /** For a key of at most 46340 in absolute value, DecryptBazeries undoes
      CryptBazeries on every text exactly when cle * cle <= 26. */
  lemma RoundTripIff(cle: Int32)
    requires -MaxKey <= cle <= MaxKey
    ensures (forall texte :: BazeriesDecrypt(BazeriesEncrypt(texte, cle), cle) == Upper(texte))
      <==> cle * cle <= 26
  {
    if cle * cle <= 26 {
      forall texte | true
        ensures BazeriesDecrypt(BazeriesEncrypt(texte, cle), cle) == Upper(texte)
      {
        RoundTrip(texte, cle);
      }
    } else {
      DecalageSquare(cle);
      var d := Decalage(cle);
      var c := LostLetter(d);
      var texte := [c];
      assert Upper(texte) == [c];
      var e := [EncryptChar(c, d)];
      assert BazeriesEncrypt(texte, cle) == e;
      EncryptCharShape(c, d);
      assert Upper(e) == e;
      assert BazeriesDecrypt(e, cle) == [DecryptChar(EncryptChar(c, d), d)];
    }
  }

  /** CryptBazeries("HELLO", 3) is "QNUUX" and DecryptBazeries gives "HELLO" back. */
  lemma ExampleHello()
    ensures BazeriesEncrypt("HELLO", 3) == "QNUUX"
    ensures BazeriesDecrypt("QNUUX", 3) == "HELLO"
  {
    ExampleHelloUpper();
    ExampleHelloEncrypt();
    ExampleHelloDecrypt();
  }

  lemma ExampleHelloUpper()
    ensures Upper("HELLO") == "HELLO" && Upper("QNUUX") == "QNUUX" && Decalage(3) == 9
  {
  }

  lemma ExampleHelloEncrypt()
    ensures Transform("HELLO", 9, false) == "QNUUX"
  {
    assert Transform("O", 9, false) == "X";
    assert Transform("LO", 9, false) == "UX";
    assert Transform("LLO", 9, false) == "UUX";
  }

  lemma ExampleHelloDecrypt()
    ensures Transform("QNUUX", 9, true) == "HELLO"
  {
    assert Transform("X", 9, true) == "O";
    assert Transform("UX", 9, true) == "LO";
    assert Transform("UUX", 9, true) == "LLO";
  }

  /** With the key 6, "Z" is encrypted to "J", which is decrypted to "@". */
  lemma ExampleLostLetter()
    ensures BazeriesEncrypt("Z", 6) == "J"
    ensures BazeriesDecrypt("J", 6) == "@"
  {
    assert Upper("Z") == "Z" && Upper("J") == "J";
  }

  /** DecryptBazeries with a non-negative remainder, `((x % 26) + 26) % 26`, in
      place of `(x + 26) % 26`. */
  function DecryptCharFixed(c: char, d: Int32): char {
    (Rem26(Rem26(Wrap32(c as int - 'A' as int - d)) + 26) + 'A' as int) as char
  }

  function ShiftFixed(c: char, d: Int32, decrypt: bool): char {
    if !IsLetter(c) then c
    else if decrypt then DecryptCharFixed(c, d)
    else EncryptChar(c, d)
  }

  function TransformFixed(u: string, d: Int32, decrypt: bool): (r: string)
    ensures |r| == |u|
  {
    if u == [] then [] else [ShiftFixed(u[0], d, decrypt)] + TransformFixed(u[1..], d, decrypt)
  }

  /** DecryptBazeries with the non-negative remainder. */
  function BazeriesDecryptFixed(texte: string, cle: Int32): string {
    TransformFixed(Upper(texte), Decalage(cle), true)
  }

  /** With the non-negative remainder, decrypting an encrypted letter gives it
      back for every shift in 0..2^31 - 26. */
  lemma CharRoundTripFixed(c: char, d: Int32)
    requires IsUpperLetter(c) && 0 <= d <= MaxKey * MaxKey
    ensures DecryptCharFixed(EncryptChar(c, d), d) == c
  {
    EncryptCharShape(c, d);
    var y := EncryptChar(c, d) as int - 'A' as int;
    var x := c as int - 'A' as int;
    var q := (x + d) / 26;
    assert y == (x + d) % 26 && x + d == 26 * q + y;
    assert Wrap32(y - d) == y - d;
    var r := Rem26(y - d);
    var m := (y - d - r) / 26;
    assert y - d - r == 26 * m;
    assert 0 <= r + 26 && Rem26(r + 26) == (r + 26) % 26;
    ModUnique(r + 26, 1 - q - m, x);
  }

  /** Character k of TransformFixed(u) is the corrected shift of u[k]. */
  lemma {:induction false} TransformFixedAt(u: string, d: Int32, decrypt: bool)
    ensures forall k :: 0 <= k < |u| ==> TransformFixed(u, d, decrypt)[k] == ShiftFixed(u[k], d, decrypt)
  {
    if u != [] {
      TransformFixedAt(u[1..], d, decrypt);
      assert forall k :: 1 <= k < |u| ==>
        TransformFixed(u, d, decrypt)[k] == TransformFixed(u[1..], d, decrypt)[k - 1];
    }
  }

  /** With the non-negative remainder, DecryptBazeries undoes CryptBazeries for
      every key of at most 46340 in absolute value. */
  lemma FixedRoundTrip(texte: string, cle: Int32)
    requires -MaxKey <= cle <= MaxKey
    ensures BazeriesDecryptFixed(BazeriesEncrypt(texte, cle), cle) == Upper(texte)
  {
    var u, d := Upper(texte), Decalage(cle);
    DecalageSquare(cle);
    var e := Transform(u, d, false);
    TransformAt(u, d, false);
    UpperAt(texte);
    UpperAt(e);
    TransformFixedAt(e, d, true);
    forall k | 0 <= k < |u|
      ensures ToUpper(e[k]) == e[k] && ShiftFixed(e[k], d, true) == u[k]
    {
      if IsLetter(u[k]) {
        EncryptCharShape(u[k], d);
        CharRoundTripFixed(u[k], d);
      }
    }
    assert Upper(e) == e;
    assert TransformFixed(e, d, true) == u;
  }

  /** Fonctions.CryptBazeries. */
  method CryptBazeries(texte: string, cle: Int32) returns (r: string)
    ensures r == BazeriesEncrypt(texte, cle)
  {
    var decalage := Wrap32(cle * cle);
    var resultat := "";
    var u := Upper(texte);
    for i := 0 to |u|
      invariant |resultat| == i
      invariant forall k :: 0 <= k < i ==> resultat[k] == Shift(u[k], decalage, false)
    {
      var c := u[i];
      if IsLetter(c) {
        var crypte := (Rem26(Wrap32(c as int - 'A' as int + decalage)) + 'A' as int) as char;
        resultat := resultat + [crypte];
      } else {
        resultat := resultat + [c];
      }
    }
    TransformEqual(u, resultat, decalage, false);
    r := resultat;
  }

  /** Fonctions.DecryptBazeries. */
  method DecryptBazeries(texte: string, cle: Int32) returns (r: string)
    ensures r == BazeriesDecrypt(texte, cle)
  {
    var decalage := Wrap32(cle * cle);
    var resultat := "";
    var u := Upper(texte);
    for i := 0 to |u|
      invariant |resultat| == i
      invariant forall k :: 0 <= k < i ==> resultat[k] == Shift(u[k], decalage, true)
    {
      var c := u[i];
      if IsLetter(c) {
        var decrypte := (Rem26(Wrap32(c as int - 'A' as int - decalage + 26)) + 'A' as int) as char;
        resultat := resultat + [decrypte];
      } else {
        resultat := resultat + [c];
      }
    }
    TransformEqual(u, resultat, decalage, true);
    r := resultat;
  }
}
