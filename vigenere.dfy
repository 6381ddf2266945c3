/**
  Fonctions.CryptVigenere and Fonctions.DecryptVigenere: a polyalphabetic shift
  over the upper-cased text. Letters are shifted by the key letter at the
  current key index, which advances on letters only; every other character is
  copied (upper-cased) to the same position.
 */
module Vigenere {
  import opened DotNet

  /** The number of letters in s. */
  function LetterCount(s: string): (n: nat)
    ensures n <= |s|
  {
    if s == [] then 0
    else (if IsLetter(s[0]) then 1 else 0) + LetterCount(s[1..])
  }

  /** u holds no letter. */
  predicate NoLetter(u: string) {
    forall k :: 0 <= k < |u| ==> !IsLetter(u[k])
  }

  /** The key can be used on u: it is not empty, or u has no letter, so that
      `indexCle % cle.Length` is never evaluated. */
  predicate KeyUsable(u: string, key: string) {
    |key| > 0 || NoLetter(u)
  }

  /** A key made of letters only (of either case). */
  predicate LetterKey(key: string) {
    |key| > 0 && forall i :: 0 <= i < |key| ==> IsLetter(key[i])
  }

  /** A key made of upper-case letters only. */
  predicate UpperKey(key: string) {
    |key| > 0 && forall i :: 0 <= i < |key| ==> IsUpperLetter(key[i])
  }

  /** `cle[indexCle % cle.Length] - 'A'`: the shift the key gives to letter number j. */
  function Decalage(key: string, j: nat): (d: int)
    requires |key| > 0
    ensures UpperKey(key) ==> 0 <= d < 26
  {
    key[j % |key|] as int - 'A' as int
  }

  /** `(char)(((c - 'A' + decalage) % 26) + 'A')` with C#'s truncating `%`. */
  function EncryptChar(c: char, d: int): (r: char)
    ensures IsUpperLetter(c) && 0 <= d ==>
      IsUpperLetter(r) && r as int - 'A' as int == (c as int - 'A' as int + d) % 26
  {
    (Rem26(c as int - 'A' as int + d) + 'A' as int) as char
  }

  /** `(char)(((c - 'A' - decalage + 26) % 26) + 'A')` with C#'s truncating `%`. */
  function DecryptChar(c: char, d: int): (r: char)
    ensures IsUpperLetter(c) && 0 <= d <= 26 ==>
      IsUpperLetter(r) && r as int - 'A' as int == (c as int - 'A' as int - d) % 26
  {
    (Rem26(c as int - 'A' as int - d + 26) + 'A' as int) as char
  }

  /** The letter that one loop iteration of either direction appends for the
      letter c when the key index is j. */
  function Shift(c: char, key: string, j: nat, decrypt: bool): char
    requires |key| > 0
  {
    if decrypt then DecryptChar(c, Decalage(key, j)) else EncryptChar(c, Decalage(key, j))
  }

  /** What one loop iteration appends for any character c at key index j. */
  function Step(c: char, key: string, j: nat, decrypt: bool): char
    requires IsLetter(c) ==> |key| > 0
  {
    if IsLetter(c) then Shift(c, key, j, decrypt) else c
  }

  /** What the loop of CryptVigenere (decrypt == false) or DecryptVigenere
      (decrypt == true) appends for the upper-cased characters u with the
      upper-cased key, starting at key index j. */
  function Transform(u: string, key: string, j: nat, decrypt: bool): (r: string)
    requires KeyUsable(u, key)
    ensures |r| == |u|
  {
    if u == [] then []
    else if IsLetter(u[0]) then [Shift(u[0], key, j, decrypt)] + Transform(u[1..], key, j + 1, decrypt)
    else [u[0]] + Transform(u[1..], key, j, decrypt)
  }

  /** Transforming two pieces one after the other is transforming the whole:
      the key index carries over from one piece to the next. */
  lemma {:induction false} TransformAppend(a: string, b: string, key: string, j: nat, decrypt: bool)
    requires |key| > 0
    ensures Transform(a + b, key, j, decrypt)
      == Transform(a, key, j, decrypt) + Transform(b, key, j + LetterCount(a), decrypt)
  {
    if a == [] {
      assert a + b == b;
    } else {
      var ab := a + b;
      assert ab[0] == a[0] && ab[1..] == a[1..] + b;
      var j' := if IsLetter(a[0]) then j + 1 else j;
      var x := if IsLetter(a[0]) then [Shift(a[0], key, j, decrypt)] else [a[0]];
      assert LetterCount(a) == j' - j + LetterCount(a[1..]);
      TransformAppend(a[1..], b, key, j', decrypt);
      var ra, rb := Transform(a[1..], key, j', decrypt), Transform(b, key, j + LetterCount(a), decrypt);
      calc {
        Transform(ab, key, j, decrypt);
        x + Transform(a[1..] + b, key, j', decrypt);
        x + (ra + rb);
        (x + ra) + rb;
      }
    }
  }

  /** The string CryptVigenere(texte, cle) returns. */
  function VigenereEncrypt(texte: string, cle: string): string
    requires KeyUsable(Upper(texte), cle)
  {
    Transform(Upper(texte), Upper(cle), 0, false)
  }

  /** The string DecryptVigenere(texte, cle) returns. */
  function VigenereDecrypt(texte: string, cle: string): string
    requires KeyUsable(Upper(texte), cle)
  {
    Transform(Upper(texte), Upper(cle), 0, true)
  }

  /** Outcome of a call: the key is indexed at the first letter only, and an
      empty key then throws DivideByZeroException. */
  function Outcome(texte: string, cle: string, decrypt: bool): Result<string>
  {
    if cle == [] && !NoLetter(Upper(texte)) then Thrown(DivideByZero)
    else Ok(Transform(Upper(texte), Upper(cle), 0, decrypt))
  }

  /** Two strings with letters at the same positions have the same letter counts. */
  lemma {:induction false} LetterCountSameShape(a: string, b: string)
    requires |a| == |b|
    requires forall i :: 0 <= i < |a| ==> IsLetter(a[i]) == IsLetter(b[i])
    ensures LetterCount(a) == LetterCount(b)
  {
    if a != [] {
      LetterCountSameShape(a[1..], b[1..]);
    }
  }

  /** Character i of the result is character i of u stepped at the key index
      j plus the number of letters before position i: non-letters do not use
      up key positions. */
  lemma {:induction false} TransformAt(u: string, key: string, j: nat, decrypt: bool, i: nat)
    requires KeyUsable(u, key)
    requires i < |u|
    ensures IsLetter(u[i]) ==> |key| > 0
    ensures Transform(u, key, j, decrypt)[i] == Step(u[i], key, j + LetterCount(u[..i]), decrypt)
    decreases i
  {
    if i == 0 {
      assert u[..i] == [];
    } else {
      TransformAt(u[1..], key, if IsLetter(u[0]) then j + 1 else j, decrypt, i - 1);
      assert u[..i][1..] == u[1..][..i - 1];
    }
  }

  /** On a text without letters the key is never used and the text comes back unchanged. */
  lemma {:induction false} TransformNoLetter(u: string, key: string, j: nat, decrypt: bool)
    requires NoLetter(u)
    ensures Transform(u, key, j, decrypt) == u
  {
    if u != [] {
      TransformNoLetter(u[1..], key, j, decrypt);
    }
  }

  /** Shape of CryptVigenere's result for a key of letters: same length; every
      letter becomes an upper-case letter shifted by the key letter whose index
      is the number of letters before it; every other character stays as it was. */
  lemma EncryptShape(texte: string, cle: string, i: nat)
    requires LetterKey(cle)
    requires i < |texte|
    ensures KeyUsable(Upper(texte), cle)
    ensures |VigenereEncrypt(texte, cle)| == |texte|
    ensures var r := VigenereEncrypt(texte, cle)[i];
      if IsLetter(texte[i]) then
        IsUpperLetter(r) &&
        r as int - 'A' as int ==
          (ToUpper(texte[i]) as int - 'A' as int
           + ToUpper(cle[LetterCount(texte[..i]) % |cle|]) as int - 'A' as int) % 26
      else r == texte[i]
  {
    var u, key := Upper(texte), Upper(cle);
    var n := LetterCount(texte[..i]);
    assert UpperKey(key) && key[n % |key|] == ToUpper(cle[n % |cle|]) by {
      UpperAt(cle);
    }
    assert u[i] == ToUpper(texte[i]) && LetterCount(u[..i]) == n by {
      UpperAt(texte);
      LetterCountSameShape(u[..i], texte[..i]);
    }
    assert KeyUsable(u, key) && VigenereEncrypt(texte, cle)[i] == Step(u[i], key, n, false) by {
      TransformAt(u, key, 0, false, i);
    }
    if IsLetter(texte[i]) {
      var d := Decalage(key, n);
      assert VigenereEncrypt(texte, cle)[i] == EncryptChar(u[i], d);
      assert u[i] as int - 'A' as int + d
        == ToUpper(texte[i]) as int - 'A' as int + ToUpper(cle[n % |cle|]) as int - 'A' as int;
    }
  }

  /** The letters of a Transform result sit where the letters of u sit, and are upper-case. */
  lemma SameShape(u: string, key: string, j: nat, decrypt: bool, i: nat)
    requires UpperKey(key)
    requires forall k :: 0 <= k < |u| ==> ToUpper(u[k]) == u[k]
    requires i < |u|
    ensures IsLetter(Transform(u, key, j, decrypt)[i]) == IsLetter(u[i])
    ensures IsLetter(u[i]) ==> IsUpperLetter(Transform(u, key, j, decrypt)[i])
    ensures !IsLetter(u[i]) ==> Transform(u, key, j, decrypt)[i] == u[i]
  {
    TransformAt(u, key, j, decrypt, i);
  }

  /** One step of either direction is undone by the step of the other, for a
      key of upper-case letters. */
  lemma StepInverse(c: char, key: string, j: nat, decrypt: bool)
    requires UpperKey(key)
    requires ToUpper(c) == c
    ensures Step(Step(c, key, j, decrypt), key, j, !decrypt) == c
  {
    if IsLetter(c) {
      ShiftInverse(c as int - 'A' as int, Decalage(key, j));
    }
  }

  /** Adding then subtracting a shift modulo 26, or the other way round, gives x back. */
  lemma ShiftInverse(x: int, d: int)
    requires 0 <= x < 26 && 0 <= d < 26
    ensures ((x + d) % 26 - d) % 26 == x
    ensures ((x - d) % 26 + d) % 26 == x
  {
    if x + d < 26 { assert (x + d) % 26 == x + d; } else { assert (x + d) % 26 == x + d - 26; }
    if x - d >= 0 { assert (x - d) % 26 == x - d; } else { assert (x - d) % 26 == x - d + 26; }
  }

  /** With the same key, decrypting the encryption of u gives u back, and so
      does encrypting the decryption of u (u already upper-cased). */
  lemma TransformInverse(u: string, key: string, decrypt: bool)
    requires UpperKey(key)
    requires forall k :: 0 <= k < |u| ==> ToUpper(u[k]) == u[k]
    ensures Transform(Transform(u, key, 0, decrypt), key, 0, !decrypt) == u
  {
    var e := Transform(u, key, 0, decrypt);
    forall k | 0 <= k < |u|
      ensures IsLetter(e[k]) == IsLetter(u[k])
    {
      SameShape(u, key, 0, decrypt, k);
    }
    forall k | 0 <= k < |u|
      ensures Transform(e, key, 0, !decrypt)[k] == u[k]
    {
      InverseAt(u, e, key, decrypt, k);
    }
  }

  /** Character k of the round trip, for TransformInverse. */
  lemma InverseAt(u: string, e: string, key: string, decrypt: bool, k: nat)
    requires UpperKey(key)
    requires forall i :: 0 <= i < |u| ==> ToUpper(u[i]) == u[i]
    requires e == Transform(u, key, 0, decrypt)
    requires forall i :: 0 <= i < |u| ==> IsLetter(e[i]) == IsLetter(u[i])
    requires k < |u|
    ensures Transform(e, key, 0, !decrypt)[k] == u[k]
  {
    TransformAt(u, key, 0, decrypt, k);
    TransformAt(e, key, 0, !decrypt, k);
    LetterCountSameShape(e[..k], u[..k]);
    StepInverse(u[k], key, LetterCount(u[..k]), decrypt);
  }

  /** Encrypting or decrypting already upper-cased text changes nothing under
      a second ToUpper. */
  lemma TransformIsUpper(u: string, key: string, decrypt: bool)
    requires UpperKey(key)
    requires forall k :: 0 <= k < |u| ==> ToUpper(u[k]) == u[k]
    ensures Upper(Transform(u, key, 0, decrypt)) == Transform(u, key, 0, decrypt)
  {
    var e := Transform(u, key, 0, decrypt);
    forall k | 0 <= k < |e| ensures ToUpper(e[k]) == e[k] {
      SameShape(u, key, 0, decrypt, k);
    }
    UpperAt(e);
  }

  /** DecryptVigenere undoes CryptVigenere for a key of letters. */
  lemma RoundTrip(texte: string, cle: string)
    requires LetterKey(cle)
    ensures KeyUsable(Upper(texte), cle)
    ensures var e := VigenereEncrypt(texte, cle);
      KeyUsable(Upper(e), cle) && VigenereDecrypt(e, cle) == Upper(texte)
  {
    UpperAt(texte);
    UpperAt(cle);
    TransformIsUpper(Upper(texte), Upper(cle), false);
    TransformInverse(Upper(texte), Upper(cle), false);
  }

  /** CryptVigenere undoes DecryptVigenere for a key of letters. */
  lemma RoundTripReverse(texte: string, cle: string)
    requires LetterKey(cle)
    ensures KeyUsable(Upper(texte), cle)
    ensures var d := VigenereDecrypt(texte, cle);
      KeyUsable(Upper(d), cle) && VigenereEncrypt(d, cle) == Upper(texte)
  {
    UpperAt(texte);
    UpperAt(cle);
    TransformIsUpper(Upper(texte), Upper(cle), true);
    TransformInverse(Upper(texte), Upper(cle), true);
  }

  /** The classic example, ATTACKATDAWN under LEMON, four letters at a time. */
  lemma ExampleEncryptFirst()
    ensures Transform("ATTA", "LEMON", 0, false) == "LXFO"
    ensures Upper("ATTA") == "ATTA" && LetterCount("ATTA") == 4
  {
    assert Transform("A", "LEMON", 3, false) == "O";
    assert Transform("TA", "LEMON", 2, false) == "FO";
    assert Transform("TTA", "LEMON", 1, false) == "XFO";
  }

  lemma ExampleDecryptFirst()
    ensures Transform("LXFO", "LEMON", 0, true) == "ATTA"
    ensures Upper("LXFO") == "LXFO" && LetterCount("LXFO") == 4
  {
    assert Transform("O", "LEMON", 3, true) == "A";
    assert Transform("FO", "LEMON", 2, true) == "TA";
    assert Transform("XFO", "LEMON", 1, true) == "TTA";
  }

  lemma ExampleEncryptSecond()
    ensures Transform("CKAT", "LEMON", 4, false) == "PVEF"
    ensures Upper("CKAT") == "CKAT" && LetterCount("CKAT") == 4
  {
    assert Transform("T", "LEMON", 7, false) == "F";
    assert Transform("AT", "LEMON", 6, false) == "EF";
    assert Transform("KAT", "LEMON", 5, false) == "VEF";
  }

  lemma ExampleDecryptSecond()
    ensures Transform("PVEF", "LEMON", 4, true) == "CKAT"
    ensures Upper("PVEF") == "PVEF" && LetterCount("PVEF") == 4
  {
    assert Transform("F", "LEMON", 7, true) == "T";
    assert Transform("EF", "LEMON", 6, true) == "AT";
    assert Transform("VEF", "LEMON", 5, true) == "KAT";
  }

  lemma ExampleEncryptThird()
    ensures Transform("DAWN", "LEMON", 8, false) == "RNHR"
    ensures Upper("DAWN") == "DAWN"
  {
    assert Transform("N", "LEMON", 11, false) == "R";
    assert Transform("WN", "LEMON", 10, false) == "HR";
    assert Transform("AWN", "LEMON", 9, false) == "NHR";
  }

  lemma ExampleDecryptThird()
    ensures Transform("RNHR", "LEMON", 8, true) == "DAWN"
    ensures Upper("RNHR") == "RNHR"
  {
    assert Transform("R", "LEMON", 11, true) == "N";
    assert Transform("HR", "LEMON", 10, true) == "WN";
    assert Transform("NHR", "LEMON", 9, true) == "AWN";
  }

  lemma ExampleWords()
    ensures "ATTA" + "CKAT" + "DAWN" == "ATTACKATDAWN"
    ensures "LXFO" + "PVEF" + "RNHR" == "LXFOPVEFRNHR"
  {
  }

  lemma ExampleKey()
    ensures Upper("LEMON") == "LEMON"
  {
  }

  /** Puts three worked pieces of four letters together. */
  lemma ExampleJoin(a: string, b: string, c: string, k: string, ra: string, rb: string, rc: string, decrypt: bool)
    requires Upper(a) == a && Upper(b) == b && Upper(c) == c && Upper(k) == k && |k| > 0
    requires LetterCount(a) == 4 && LetterCount(b) == 4
    requires Transform(a, k, 0, decrypt) == ra
    requires Transform(b, k, 4, decrypt) == rb
    requires Transform(c, k, 8, decrypt) == rc
    ensures !decrypt ==> VigenereEncrypt(a + b + c, k) == ra + rb + rc
    ensures decrypt ==> VigenereDecrypt(a + b + c, k) == ra + rb + rc
  {
    JoinUpper(a, b, c);
    JoinTransform(a, b, c, k, ra, rb, rc, decrypt);
  }

  lemma JoinUpper(a: string, b: string, c: string)
    requires Upper(a) == a && Upper(b) == b && Upper(c) == c
    ensures Upper(a + b + c) == a + b + c
  {
    UpperAppend(a, b);
    UpperAppend(a + b, c);
  }

  lemma JoinTransform(a: string, b: string, c: string, k: string, ra: string, rb: string, rc: string, decrypt: bool)
    requires |k| > 0 && LetterCount(a) == 4 && LetterCount(b) == 4
    requires Transform(a, k, 0, decrypt) == ra
    requires Transform(b, k, 4, decrypt) == rb
    requires Transform(c, k, 8, decrypt) == rc
    ensures Transform(a + b + c, k, 0, decrypt) == ra + rb + rc
  {
    TransformAppend(a, b, k, 0, decrypt);
    LetterCountAppend(a, b);
    TransformAppend(a + b, c, k, 0, decrypt);
  }

  /** CryptVigenere("ATTACKATDAWN", "LEMON") is "LXFOPVEFRNHR". */
  lemma ExampleEncrypt()
    ensures VigenereEncrypt("ATTACKATDAWN", "LEMON") == "LXFOPVEFRNHR"
  {
    ExampleEncryptFirst();
    ExampleEncryptSecond();
    ExampleEncryptThird();
    ExampleKey();
    ExampleJoin("ATTA", "CKAT", "DAWN", "LEMON", "LXFO", "PVEF", "RNHR", false);
    ExampleWords();
  }

  /** DecryptVigenere("LXFOPVEFRNHR", "LEMON") is "ATTACKATDAWN". */
  lemma ExampleDecrypt()
    ensures VigenereDecrypt("LXFOPVEFRNHR", "LEMON") == "ATTACKATDAWN"
  {
    ExampleDecryptFirst();
    ExampleDecryptSecond();
    ExampleDecryptThird();
    ExampleKey();
    ExampleJoin("LXFO", "PVEF", "RNHR", "LEMON", "ATTA", "CKAT", "DAWN", true);
    ExampleWords();
  }

  lemma {:induction false} LetterCountAppend(a: string, b: string)
    ensures LetterCount(a + b) == LetterCount(a) + LetterCount(b)
  {
    if a == [] {
      assert a + b == b;
    } else {
      assert (a + b)[1..] == a[1..] + b;
      LetterCountAppend(a[1..], b);
    }
  }

  /** Transform peels off one character at a time. */
  lemma TransformCons(u: string, key: string, j: nat, decrypt: bool, i: nat)
    requires |key| > 0 && i < |u|
    ensures Transform(u[i..], key, j, decrypt)
      == [Step(u[i], key, j, decrypt)] + Transform(u[i + 1..], key, if IsLetter(u[i]) then j + 1 else j, decrypt)
  {
    assert u[i..][0] == u[i] && u[i..][1..] == u[i + 1..];
  }

  /** Fonctions.CryptVigenere. */
  method CryptVigenere(texte: string, cle: string) returns (r: Result<string>)
    ensures r == Outcome(texte, cle, false)
  {
    var resultat := "";
    var key := Upper(cle);
    var indexCle := 0;
    var u := Upper(texte);
    for i := 0 to |u|
      invariant |key| > 0 ==>
        resultat + Transform(u[i..], key, indexCle, false) == Transform(u, key, 0, false)
      invariant |key| == 0 ==> resultat == u[..i] && NoLetter(u[..i])
    {
      var c := u[i];
      assert u[..i + 1] == u[..i] + [c];
      if |key| > 0 {
        TransformCons(u, key, indexCle, false, i);
      }
      if IsLetter(c) {
        if |key| == 0 {
          assert !NoLetter(u);
          return Thrown(DivideByZero);
        }
        var decalage := key[indexCle % |key|] as int - 'A' as int;
        var crypte := (Rem26(c as int - 'A' as int + decalage) + 'A' as int) as char;
        assert crypte == Step(c, key, indexCle, false);
        assert (resultat + [crypte]) + Transform(u[i + 1..], key, indexCle + 1, false)
          == resultat + ([crypte] + Transform(u[i + 1..], key, indexCle + 1, false));
        resultat := resultat + [crypte];
        indexCle := indexCle + 1;
      } else {
        if |key| > 0 {
          assert (resultat + [c]) + Transform(u[i + 1..], key, indexCle, false)
            == resultat + ([c] + Transform(u[i + 1..], key, indexCle, false));
        }
        resultat := resultat + [c];
      }
    }
    assert u[|u|..] == [] && u[..|u|] == u;
    if |key| == 0 {
      TransformNoLetter(u, key, 0, false);
    }
    assert resultat == Transform(u, key, 0, false);
    r := Ok(resultat);
    assert cle == [] ==> NoLetter(u);
  }

  /** Fonctions.DecryptVigenere. */
  method DecryptVigenere(texte: string, cle: string) returns (r: Result<string>)
    ensures r == Outcome(texte, cle, true)
  {
    var resultat := "";
    var key := Upper(cle);
    var indexCle := 0;
    var u := Upper(texte);
    for i := 0 to |u|
      invariant |key| > 0 ==>
        resultat + Transform(u[i..], key, indexCle, true) == Transform(u, key, 0, true)
      invariant |key| == 0 ==> resultat == u[..i] && NoLetter(u[..i])
    {
      var c := u[i];
      assert u[..i + 1] == u[..i] + [c];
      if |key| > 0 {
        TransformCons(u, key, indexCle, true, i);
      }
      if IsLetter(c) {
        if |key| == 0 {
          assert !NoLetter(u);
          return Thrown(DivideByZero);
        }
        var decalage := key[indexCle % |key|] as int - 'A' as int;
        var decrypte := (Rem26(c as int - 'A' as int - decalage + 26) + 'A' as int) as char;
        assert decrypte == Step(c, key, indexCle, true);
        assert (resultat + [decrypte]) + Transform(u[i + 1..], key, indexCle + 1, true)
          == resultat + ([decrypte] + Transform(u[i + 1..], key, indexCle + 1, true));
        resultat := resultat + [decrypte];
        indexCle := indexCle + 1;
      } else {
        if |key| > 0 {
          assert (resultat + [c]) + Transform(u[i + 1..], key, indexCle, true)
            == resultat + ([c] + Transform(u[i + 1..], key, indexCle, true));
        }
        resultat := resultat + [c];
      }
    }
    assert u[|u|..] == [] && u[..|u|] == u;
    if |key| == 0 {
      TransformNoLetter(u, key, 0, true);
    }
    assert resultat == Transform(u, key, 0, true);
    r := Ok(resultat);
    assert cle == [] ==> NoLetter(u);
  }
}
