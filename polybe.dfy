/**
  Fonctions.CryptPolybe and Fonctions.DecryptPolybe: the Polybius square over
  the 5x5 table carre, in which I and J share the cell at row 2, column 4.
  Encryption writes each character of the upper-cased text as a token
  followed by a space and trims the result; decryption splits on spaces and
  turns every two-digit token 11..55 back into its letter.
 */
module Polybe {
  import opened DotNet

  /** carre, row after row: carre[ligne, colonne] is Table[5 * ligne + colonne]. */
  const Table: string := "ABCDEFGHIKLMNOPQRSTUVWXYZ"

  /** carre[ligne, colonne]. */
  function Carre(ligne: nat, colonne: nat): char
    requires ligne < 5 && colonne < 5
  {
    Table[5 * ligne + colonne]
  }

  /** The array a holds the table carre. */
  predicate IsCarre(a: array2<char>)
    reads a
  {
    a.Length0 == 5 && a.Length1 == 5
    && forall l, c :: 0 <= l < 5 && 0 <= c < 5 ==> a[l, c] == Carre(l, c)
  }

  /** The array initializer `char[,] carre = { {'A', ...}, ... }`. */
  method NewCarre() returns (carre: array2<char>)
    ensures fresh(carre) && IsCarre(carre)
  {
    carre := new char[5, 5]((l: int, c: int) requires 0 <= l < 5 && 0 <= c < 5 => Carre(l, c));
  }

  /** The letter in cell k (row k / 5, column k % 5), as a formula: the
      alphabet without J. */
  function Letter(k: int): int {
    'A' as int + k + (if k >= 9 then 1 else 0)
  }

  /** carre holds the 25 upper-case letters other than J, in alphabetical order. */
  lemma TableLetters()
    ensures forall q :: 0 <= q < 25 ==> Table[q] as int == Letter(q)
  {
  }

  /** The cell, counted row after row, where the nested loops of CryptPolybe
      find c: the upper-case letters other than J are in alphabetical order,
      and nothing else is in carre. */
  function Locate(c: char): (p: Option<nat>)
    ensures p.Some? ==> p.value < 25 && Table[p.value] == c
    ensures p.None? ==> forall q :: 0 <= q < 25 ==> Table[q] != c
  {
    TableLetters();
    if IsUpperLetter(c) && c != 'J' then
      var k := c as int - 'A' as int - (if c > 'J' then 1 else 0);
      assert Table[k] as int == Letter(k);
      Some(k)
    else
      None
  }

  /** The characters found in carre are exactly the upper-case letters other than J. */
  lemma InSquare(c: char)
    ensures Locate(c).Some? <==> IsUpperLetter(c) && c != 'J'
  {
  }

  /** Every cell holds a different letter. */
  lemma TableDistinct(p: nat, q: nat)
    requires p < 25 && q < 25 && Table[p] == Table[q]
    ensures p == q
  {
    TableLetters();
    assert Table[p] as int == Letter(p) && Table[q] as int == Letter(q);
  }

  /** The token CryptPolybe writes for c, before any separator: "24" for J,
      row + 1 and column + 1 for a character found in carre, c itself otherwise. */
  function Code(c: char): (t: string)
  {
    if c == 'J' then "24"
    else match Locate(c)
      case Some(k) => DigitString(k / 5 + 1) + DigitString(k % 5 + 1)
      case None => [c]
  }

  /** What one iteration of CryptPolybe's loop appends for c: the token and a
      space, except for J, whose `continue` skips the space. */
  function Piece(c: char): string {
    if c == 'J' then Code(c) else Code(c) + " "
  }

  /** What the loop of CryptPolybe builds from the upper-cased text u. */
  function Raw(u: string): (r: string)
  {
    if u == [] then [] else Piece(u[0]) + Raw(u[1..])
  }

  /** The string CryptPolybe(texte) returns. */
  function PolybeEncrypt(texte: string): string {
    Trim(Raw(Upper(texte)))
  }

  /** The token for a letter of carre is its row and its column, counted from 1;
      J gets the token of I; any other character is its own token. */
  lemma CodeCases(c: char)
    ensures c == 'J' ==> Code(c) == Code('I') == "24"
    ensures IsUpperLetter(c) && c != 'J' ==>
      |Code(c)| == 2 && '1' <= Code(c)[0] <= '5' && '1' <= Code(c)[1] <= '5'
      && Carre(Code(c)[0] as int - '1' as int, Code(c)[1] as int - '1' as int) == c
    ensures !IsUpperLetter(c) ==> Code(c) == [c]
  {
    InSquare(c);
    InSquare('I');
    TableDistinct(Locate('I').value, 8);
    if IsUpperLetter(c) && c != 'J' {
      var k := Locate(c).value;
      assert 5 * (k / 5) + k % 5 == k;
    }
  }

  /** The cell at row ligne, column colonne gets the token (ligne + 1)(colonne + 1). */
  lemma CodeOfCell(ligne: nat, colonne: nat)
    requires ligne < 5 && colonne < 5
    ensures Carre(ligne, colonne) != 'J'
    ensures Code(Carre(ligne, colonne)) == DigitString(ligne + 1) + DigitString(colonne + 1)
  {
    var c := Carre(ligne, colonne);
    var k := 5 * ligne + colonne;
    TableLetters();
    assert Table[k] as int == Letter(k);
    var p := Locate(c).value;
    TableDistinct(p, k);
    assert k / 5 == ligne && k % 5 == colonne;
  }

  /** What DecryptPolybe appends for one token: a two-digit token whose digits
      both lie in 1..5 becomes the letter of that cell; any other token is
      copied. */
  function DecodeToken(partie: string): string
  {
    if |partie| == 2 && IsDigit(partie[0]) && IsDigit(partie[1]) then
      var ligne := ParseDigit([partie[0]]) - 1;
      var colonne := ParseDigit([partie[1]]) - 1;
      if 0 <= ligne < 5 && 0 <= colonne < 5 then [Carre(ligne, colonne)] else partie
    else partie
  }

  /** The two cases of DecodeToken, stated on the characters of the token. */
  lemma DecodeTokenCases(partie: string)
    ensures |partie| == 2 && '1' <= partie[0] <= '5' && '1' <= partie[1] <= '5' ==>
      DecodeToken(partie) == [Carre(partie[0] as int - '1' as int, partie[1] as int - '1' as int)]
    ensures !(|partie| == 2 && '1' <= partie[0] <= '5' && '1' <= partie[1] <= '5') ==>
      DecodeToken(partie) == partie
  {
  }

  /** What the loop of DecryptPolybe builds from the tokens parties. */
  function DecodeAll(parties: seq<string>): string
  {
    if parties == [] then [] else DecodeToken(parties[0]) + DecodeAll(parties[1..])
  }

  /** The string DecryptPolybe(texte) returns. */
  function PolybeDecrypt(texte: string): string {
    DecodeAll(Split(texte))
  }

  /** Decoding the token of c gives c back, and I for J. */
  lemma DecodeCode(c: char)
    ensures DecodeToken(Code(c)) == [if c == 'J' then 'I' else c]
  {
    CodeCases(c);
    if c == 'J' {
      DecodeTokenI();
    } else if IsUpperLetter(c) {
      DecodeTokenCases(Code(c));
    }
  }

  /** The token 24 stands for I. */
  lemma DecodeTokenI()
    ensures DecodeToken("24") == "I"
  {
    DecodeTokenCases("24");
  }

  /** DecryptPolybe never writes a space: separators are not put back. */
  lemma {:induction false} DecodeAllNoSpace(parties: seq<string>)
    requires forall p :: p in parties ==> ' ' !in p
    ensures ' ' !in DecodeAll(parties)
  {
    if parties != [] {
      var p := parties[0];
      assert p in parties;
      TableLetters();
      if DecodeToken(p) != p {
        var ligne, colonne := p[0] as int - '1' as int, p[1] as int - '1' as int;
        DecodeTokenCases(p);
        var k := 5 * ligne + colonne;
        assert Table[k] as int == Letter(k);
      }
      assert forall q :: q in parties[1..] ==> q in parties;
      DecodeAllNoSpace(parties[1..]);
    }
  }

  /** The output of DecryptPolybe holds no space. */
  lemma DecryptNoSpace(texte: string)
    ensures ' ' !in PolybeDecrypt(texte)
  {
    DecodeAllNoSpace(Split(texte));
  }

  /** The tokens of u, one per character. */
  function Codes(u: string): (parts: seq<string>)
    ensures |parts| == |u|
  {
    if u == [] then [] else [Code(u[0])] + Codes(u[1..])
  }

  /** u with every J replaced by I. */
  function JToI(u: string): (v: string)
    ensures |v| == |u|
  {
    if u == [] then [] else [if u[0] == 'J' then 'I' else u[0]] + JToI(u[1..])
  }

  /** Decoding the tokens of u gives u back, with I for J. */
  lemma {:induction false} DecodeCodes(u: string)
    ensures DecodeAll(Codes(u)) == JToI(u)
  {
    if u != [] {
      assert Codes(u)[1..] == Codes(u[1..]);
      DecodeCode(u[0]);
      DecodeCodes(u[1..]);
    }
  }

  /** u holds no white space. */
  predicate NoWhiteSpace(u: string) {
    forall k :: 0 <= k < |u| ==> !IsWhiteSpace(u[k])
  }

  /** What CryptPolybe would build if J, like every other character, were
      followed by a space. */
  function RawFixed(u: string): (r: string)
  {
    if u == [] then [] else Code(u[0]) + " " + RawFixed(u[1..])
  }

  /** CryptPolybe with the separator written after J too. */
  function PolybeEncryptFixed(texte: string): string {
    Trim(RawFixed(Upper(texte)))
  }

  /** Without J, CryptPolybe's loop and the corrected one build the same string. */
  lemma {:induction false} RawWithoutJ(u: string)
    requires forall k :: 0 <= k < |u| ==> u[k] != 'J'
    ensures Raw(u) == RawFixed(u)
  {
    if u != [] {
      RawWithoutJ(u[1..]);
    }
  }

  /** A token of a character that is not white space holds no white space. */
  lemma CodeNoWhiteSpace(c: char)
    requires !IsWhiteSpace(c)
    ensures Code(c) != [] && SpaceIsOnlyWhite(Code(c)) && ' ' !in Code(c)
  {
    CodeCases(c);
  }

  /** On text without white space, the corrected encoding splits into the
      tokens of the characters, one each. */
  lemma {:induction false} SplitRawFixed(u: string)
    requires NoWhiteSpace(u)
    ensures SpaceIsOnlyWhite(RawFixed(u))
    ensures Split(RawFixed(u)) == Codes(u)
  {
    if u != [] {
      var t := Code(u[0]);
      CodeNoWhiteSpace(u[0]);
      NoWhiteSpaceTail(u);
      SplitRawFixed(u[1..]);
      var rest := RawFixed(u[1..]);
      assert RawFixed(u) == t + [' '] + rest;
      SplitWordSpace(t, rest);
      SpaceIsOnlyWhiteJoin(t, rest);
    }
  }

  lemma NoWhiteSpaceTail(u: string)
    requires u != [] && NoWhiteSpace(u)
    ensures NoWhiteSpace(u[1..])
  {
    forall k | 0 <= k < |u[1..]| ensures !IsWhiteSpace(u[1..][k]) {
      assert u[1..][k] == u[k + 1];
    }
  }

  /** Joining two strings whose only white space is ' ' with a space keeps that so. */
  lemma SpaceIsOnlyWhiteJoin(t: string, rest: string)
    requires SpaceIsOnlyWhite(t) && SpaceIsOnlyWhite(rest)
    ensures SpaceIsOnlyWhite(t + [' '] + rest)
  {
    var s := t + [' '] + rest;
    forall k | 0 <= k < |s| && IsWhiteSpace(s[k]) ensures s[k] == ' ' {
      if k < |t| {
        assert s[k] == t[k];
      } else if k > |t| {
        assert s[k] == rest[k - |t| - 1];
      }
    }
  }

  /** Upper-casing keeps text free of white space. */
  lemma UpperNoWhiteSpace(texte: string)
    requires NoWhiteSpace(texte)
    ensures NoWhiteSpace(Upper(texte))
  {
    UpperAt(texte);
  }

  /** With the separator after J, DecryptPolybe undoes CryptPolybe on any
      text without white space, J coming back as I. */
  lemma FixedRoundTrip(texte: string)
    requires NoWhiteSpace(texte)
    ensures PolybeDecrypt(PolybeEncryptFixed(texte)) == JToI(Upper(texte))
  {
    var u := Upper(texte);
    UpperNoWhiteSpace(texte);
    SplitRawFixed(u);
    SplitTrim(RawFixed(u));
    DecodeCodes(u);
  }

  lemma {:induction false} JToIWithoutJ(u: string)
    requires forall k :: 0 <= k < |u| ==> u[k] != 'J'
    ensures JToI(u) == u
  {
    if u != [] {
      JToIWithoutJ(u[1..]);
    }
  }

  /** DecryptPolybe undoes CryptPolybe on text without J and without white
      space: letters come back upper-cased, every other character as it was. */
  lemma RoundTrip(texte: string)
    requires NoWhiteSpace(texte)
    requires forall k :: 0 <= k < |texte| ==> ToUpper(texte[k]) != 'J'
    ensures PolybeDecrypt(PolybeEncrypt(texte)) == Upper(texte)
  {
    EncryptWithoutJ(texte);
    FixedRoundTrip(texte);
  }

  /** Without J, CryptPolybe writes what the corrected encoding writes, and
      nothing turns into I on the way back. */
  lemma EncryptWithoutJ(texte: string)
    requires forall k :: 0 <= k < |texte| ==> ToUpper(texte[k]) != 'J'
    ensures PolybeEncrypt(texte) == PolybeEncryptFixed(texte)
    ensures JToI(Upper(texte)) == Upper(texte)
  {
    var u := Upper(texte);
    assert Raw(u) == RawFixed(u) by { UpperAt(texte); RawWithoutJ(u); }
    assert JToI(u) == u by { UpperAt(texte); JToIWithoutJ(u); }
  }

  /** One more character of u. */
  lemma RawStep(u: string, i: nat)
    requires i < |u|
    ensures Raw(u[..i + 1]) == Raw(u[..i]) + Piece(u[i])
  {
    assert u[..i + 1] == u[..i] + [u[i]];
    RawSnoc(u[..i], u[i]);
  }

  /** Raw grows one character at a time at the end, as CryptPolybe's loop does. */
  lemma {:induction false} RawSnoc(a: string, c: char)
    ensures Raw(a + [c]) == Raw(a) + Piece(c)
  {
    if a == [] {
      assert a + [c] == [c];
    } else {
      assert (a + [c])[0] == a[0] && (a + [c])[1..] == a[1..] + [c];
      RawSnoc(a[1..], c);
      AppendAssoc(Piece(a[0]), Raw(a[1..]), Piece(c));
    }
  }

  /** DecodeAll grows one token at a time at the end, as DecryptPolybe's loop does. */
  lemma {:induction false} DecodeAllSnoc(parties: seq<string>, p: string)
    ensures DecodeAll(parties + [p]) == DecodeAll(parties) + DecodeToken(p)
  {
    if parties == [] {
      assert parties + [p] == [p];
    } else {
      assert (parties + [p])[0] == parties[0] && (parties + [p])[1..] == parties[1..] + [p];
      DecodeAllSnoc(parties[1..], p);
      AppendAssoc(DecodeToken(parties[0]), DecodeAll(parties[1..]), DecodeToken(p));
    }
  }

  /** One more token of parties. */
  lemma DecodeAllStep(parties: seq<string>, i: nat)
    requires i < |parties|
    ensures DecodeAll(parties[..i + 1]) == DecodeAll(parties[..i]) + DecodeToken(parties[i])
  {
    assert parties[..i + 1] == parties[..i] + [parties[i]];
    DecodeAllSnoc(parties[..i], parties[i]);
  }

  /** The token of c, then a space, is the piece of c. */
  lemma PieceAfter(before: string, c: char, token: string)
    requires c != 'J' && token == Code(c)
    ensures before + token + " " == before + Piece(c)
  {
    AppendAssoc(before, token, " ");
  }

  /** The nested loops of CryptPolybe that look for c in carre, row by row:
      they find it exactly when c is an upper-case letter other than J, and
      then give its token, row and column counted from 1. */
  method SearchCarre(carre: array2<char>, c: char) returns (trouve: bool, code: string)
    requires IsCarre(carre)
    ensures trouve <==> IsUpperLetter(c) && c != 'J'
    ensures c != 'J' ==> Code(c) == if trouve then code else [c]
  {
    trouve := false;
    code := "";
    for ligne := 0 to 5
      invariant !trouve
      invariant forall k :: 0 <= k < 5 * ligne ==> Table[k] != c
    {
      for colonne := 0 to 5
        invariant !trouve
        invariant forall k :: 0 <= k < 5 * ligne + colonne ==> Table[k] != c
      {
        if carre[ligne, colonne] == c {
          code := DigitString(ligne + 1) + DigitString(colonne + 1);
          trouve := true;
          CodeOfCell(ligne, colonne);
          break;
        }
        assert Table[5 * ligne + colonne] != c;
      }
      if trouve {
        break;
      }
    }
    InSquare(c);
    CodeCases(c);
  }

  /** The token of the letter in cell (ligne, colonne), for the examples below. */
  lemma CodeAt(ligne: nat, colonne: nat, c: char, token: string)
    requires ligne < 5 && colonne < 5 && Carre(ligne, colonne) == c
    requires DigitString(ligne + 1) + DigitString(colonne + 1) == token
    ensures Code(c) == token
  {
    CodeOfCell(ligne, colonne);
  }

  /** The tokens of the letters in the examples below. */
  lemma ExampleCodes()
    ensures Code('A') == "11" && Code('B') == "12" && Code('C') == "13"
    ensures Code('K') == "25" && Code('I') == "24" && Code('J') == "24"
  {
    ExampleCodesOfRowOne();
    CodeAt(1, 4, 'K', "25");
    CodeAt(1, 3, 'I', "24");
  }

  lemma ExampleCodesOfRowOne()
    ensures Code('A') == "11" && Code('B') == "12" && Code('C') == "13"
  {
    CodeAt(0, 0, 'A', "11");
    CodeAt(0, 1, 'B', "12");
    CodeAt(0, 2, 'C', "13");
  }

  /** Raw takes one character off the front. */
  lemma RawCons(c: char, rest: string)
    ensures Raw([c] + rest) == Piece(c) + Raw(rest)
  {
    assert ([c] + rest)[0] == c && ([c] + rest)[1..] == rest;
  }

  /** Trimming a string that ends in one space and starts with a digit
      removes that space and nothing else. */
  lemma TrimLastSpace(s: string)
    requires s != [] && IsDigit(s[0]) && IsDigit(s[|s| - 1])
    ensures Trim(s + " ") == s
  {
    var t := s + " ";
    assert t[|t| - 1] == ' ' && t[..|t| - 1] == s;
    assert TrimEnd(t) == TrimEnd(s);
    assert !IsWhiteSpace(s[|s| - 1]) && !IsWhiteSpace(s[0]);
    assert TrimEnd(s) == s && TrimStart(s) == s;
  }

  /** CryptPolybe("BACK") is "12 11 13 25": K sits in row 2, column 5. */
  lemma ExampleBack()
    ensures PolybeEncrypt("BACK") == "12 11 13 25"
  {
    ExampleCodes();
    assert Upper("BACK") == "BACK";
    RawCons('K', "");
    RawCons('C', "K");
    RawCons('A', "CK");
    RawCons('B', "ACK");
    assert Raw("BACK") == "12 11 13 25" + " ";
    TrimLastSpace("12 11 13 25");
  }

  /** CryptPolybe("J") and CryptPolybe("I") are both "24". */
  lemma ExampleJ()
    ensures PolybeEncrypt("J") == "24" && PolybeEncrypt("I") == "24"
  {
    assert Raw(Upper("J")) == "24" by { ExampleRawJ(); }
    assert Raw(Upper("I")) == "24" + " " by { ExampleRawI(); }
    TrimLastSpace("24");
    assert TrimEnd("24") == "24" && TrimStart("24") == "24";
  }

  /** CryptPolybe's loop writes "24" for J, with no separator. */
  lemma ExampleRawJ()
    ensures Raw(Upper("J")) == "24"
  {
    ExampleCodes();
    assert Upper("J") == "J";
    RawCons('J', "");
  }

  /** CryptPolybe's loop writes "24 " for I. */
  lemma ExampleRawI()
    ensures Raw(Upper("I")) == "24" + " "
  {
    ExampleCodes();
    assert Upper("I") == "I";
    RawCons('I', "");
  }

  /** CryptPolybe("JA") is "2411": no space follows the token of J. */
  lemma ExampleJA()
    ensures PolybeEncrypt("JA") == "2411"
  {
    ExampleCodes();
    assert Upper("JA") == "JA";
    RawCons('A', "");
    RawCons('J', "A");
    assert Raw("JA") == "2411" + " ";
    TrimLastSpace("2411");
  }

  /** Three words with one space between each split into those words. */
  lemma SplitThree(a: string, b: string, c: string, s: string)
    requires a != [] && ' ' !in a && b != [] && ' ' !in b && c != [] && ' ' !in c
    requires s == a + [' '] + b + [' '] + c
    ensures Split(s) == [a, b, c]
  {
    AppendAssoc(a + [' '], b, [' ']);
    AppendAssoc(a + [' '], b + [' '], c);
    SplitWordSpace(a, b + [' '] + c);
    SplitWordSpace(b, c);
    SplitWord(c);
  }

  /** "12 9X 13" is three words with a space between each. */
  lemma ExampleText()
    ensures "12 9X 13" == "12" + [' '] + "9X" + [' '] + "13"
  {
  }

  /** Split("12 9X 13") is ["12", "9X", "13"]. */
  lemma ExampleSplit()
    ensures Split("12 9X 13") == ["12", "9X", "13"]
  {
    ExampleText();
    SplitThree("12", "9X", "13", "12 9X 13");
  }

  /** Decrypting text of three tokens decodes each of them. */
  lemma DecryptThree(a: string, b: string, c: string, s: string)
    requires Split(s) == [a, b, c]
    ensures PolybeDecrypt(s) == DecodeToken(a) + DecodeToken(b) + DecodeToken(c)
  {
    assert [c][1..] == [] && DecodeAll([c]) == DecodeToken(c) + [];
    assert [b, c][1..] == [c] && DecodeAll([b, c]) == DecodeToken(b) + DecodeToken(c);
    assert [a, b, c][1..] == [b, c];
    AppendAssoc(DecodeToken(a), DecodeToken(b), DecodeToken(c));
  }

  /** What DecryptPolybe appends for the tokens 12, 9X and 13. */
  lemma ExampleTokens()
    ensures DecodeToken("12") + DecodeToken("9X") + DecodeToken("13") == "B9XC"
  {
    DecodeTokenCases("12");
    DecodeTokenCases("9X");
    DecodeTokenCases("13");
  }

  /** DecryptPolybe("12 9X 13") is "B9XC": 9X is not a cell and is copied,
      and no separator is put back. */
  lemma ExampleDecrypt()
    ensures PolybeDecrypt("12 9X 13") == "B9XC"
  {
    ExampleSplit();
    DecryptThree("12", "9X", "13", "12 9X 13");
    ExampleTokens();
  }

  /** CryptPolybe("A\tB") is "11 \t 12": the tab is its own token. */
  lemma ExampleTabEncrypt()
    ensures PolybeEncrypt("A\tB") == "11 \t 12"
  {
    ExampleCodesOfRowOne();
    CodeCases('\t');
    assert Upper("A\tB") == "A\tB";
    RawCons('B', "");
    RawCons('\t', "B");
    RawCons('A', "\tB");
    assert Raw("A\tB") == "11 \t 12" + " ";
    TrimLastSpace("11 \t 12");
  }

  /** "11 \t 12" is three words with a space between each. */
  lemma ExampleTabText()
    ensures "11 \t 12" == "11" + [' '] + "\t" + [' '] + "12"
  {
  }

  /** DecryptPolybe("11 \t 12") is "A\tB". */
  lemma ExampleTabDecrypt()
    ensures PolybeDecrypt("11 \t 12") == "A\tB"
  {
    ExampleTabSplit();
    DecryptThree("11", "\t", "12", "11 \t 12");
    ExampleTabTokens();
  }

  /** Split("11 \t 12") is ["11", "\t", "12"]: a tab does not separate. */
  lemma ExampleTabSplit()
    ensures Split("11 \t 12") == ["11", "\t", "12"]
  {
    ExampleTabText();
    SplitThree("11", "\t", "12", "11 \t 12");
  }

  /** What DecryptPolybe appends for the tokens 11, tab and 12. */
  lemma ExampleTabTokens()
    ensures DecodeToken("11") + DecodeToken("\t") + DecodeToken("12") == "A\tB"
  {
    DecodeTokenCases("11");
    DecodeTokenCases("\t");
    DecodeTokenCases("12");
  }

  /** White space other than ' ' inside the text comes back: only its two
      ends are trimmed. */
  lemma TabSurvives()
    ensures PolybeDecrypt(PolybeEncrypt("A\tB")) == "A\tB"
  {
    ExampleTabEncrypt();
    ExampleTabDecrypt();
  }

  /** DecryptPolybe("2411") is "2411": a token of four digits is copied. */
  lemma ExampleDecryptJA()
    ensures PolybeDecrypt("2411") == "2411"
  {
    SplitWord("2411");
    assert DecodeAll(["2411"]) == DecodeToken("2411") + [];
  }

  /** The missing separator after J breaks the round trip: CryptPolybe("JA")
      comes back from DecryptPolybe as "2411", while the encoding with the
      separator comes back as "IA". */
  lemma JSeparatorBreaksRoundTrip()
    ensures PolybeDecrypt(PolybeEncrypt("JA")) == "2411"
    ensures PolybeDecrypt(PolybeEncryptFixed("JA")) == "IA"
  {
    ExampleJA();
    ExampleDecryptJA();
    ExampleFixedJA();
  }

  /** With the separator, "JA" comes back as "IA". */
  lemma ExampleFixedJA()
    ensures PolybeDecrypt(PolybeEncryptFixed("JA")) == "IA"
  {
    ExampleTextJA();
    FixedRoundTrip("JA");
  }

  lemma ExampleTextJA()
    ensures NoWhiteSpace("JA") && Upper("JA") == "JA" && JToI("JA") == "IA"
  {
  }

  /** Fonctions.CryptPolybe. */
  method CryptPolybe(texte: string) returns (r: string)
    ensures r == PolybeEncrypt(texte)
  {
    var carre := NewCarre();
    var resultat := "";
    var u := Upper(texte);
    for i := 0 to |u|
      invariant IsCarre(carre)
      invariant resultat == Raw(u[..i])
    {
      var c := u[i];
      RawStep(u, i);
      if c == 'J' {
        resultat := resultat + "24";
        continue;
      }
      var trouve, code := SearchCarre(carre, c);
      ghost var before := resultat;
      if trouve {
        resultat := resultat + code;
      } else {
        resultat := resultat + [c];
      }
      resultat := resultat + " ";
      PieceAfter(before, c, if trouve then code else [c]);
    }
    assert u[..|u|] == u;
    assert resultat == Raw(u);
    r := Trim(resultat);
  }

  /** Fonctions.DecryptPolybe. */
  method DecryptPolybe(texte: string) returns (r: string)
    ensures r == PolybeDecrypt(texte)
  {
    var carre := NewCarre();
    var resultat := "";
    var parties := Split(texte);
    for i := 0 to |parties|
      invariant IsCarre(carre)
      invariant resultat == DecodeAll(parties[..i])
    {
      var partie := parties[i];
      DecodeAllStep(parties, i);
      if |partie| == 2 && IsDigit(partie[0]) && IsDigit(partie[1]) {
        var ligne := ParseDigit([partie[0]]) - 1;
        var colonne := ParseDigit([partie[1]]) - 1;
        if 0 <= ligne < 5 && 0 <= colonne < 5 {
          resultat := resultat + [carre[ligne, colonne]];
        } else {
          resultat := resultat + partie;
        }
      } else {
        resultat := resultat + partie;
      }
    }
    assert parties[..|parties|] == parties;
    r := resultat;
  }
}
