# Fonctions.cs cipher routines in Dafny

This project models the three encode/decode pairs of the `Fonctions` class:

- **Vigenère** (`CryptVigenere`, `DecryptVigenere`). Each letter of the upper-cased text is shifted by the letter of the upper-cased key at the current key index. The key index advances on letters only. Every other character is copied to its position.
- **Polybe** (`CryptPolybe`, `DecryptPolybe`). This is the Polybius square over the 5×5 array `carre`, in which I and J share the cell at row 2, column 4.
  - Encryption writes each character of the upper-cased text as a token and a space, then trims the result. J writes `24` and no space.
  - Decryption splits the text on spaces. Each two-digit token with both digits in 1..5 becomes its letter; any other token is copied.
- **Bazeries** (`CryptBazeries`, `DecryptBazeries`). Every letter of the upper-cased text is shifted by `cle * cle`, computed with C# `int` arithmetic and C#'s truncating `%`.

Each C# method is a Dafny `method` with the same loop: a `for` over the characters or tokens, building `resultat`. Each method is proved equal to a pure specification function, and the properties are lemmas about those functions.

The files:

- `dotnet.dfy` (module `DotNet`) models the library semantics the code relies on, restricted to ASCII:
  - `char.IsLetter`, `char.IsDigit`, `char.IsWhiteSpace` and `ToUpper`;
  - C#'s truncated remainder `%`, as `Rem26`;
  - 32-bit wrapping `int` arithmetic, as `Wrap32`;
  - `int.ToString` and `int.Parse` on one digit;
  - `String.Trim`, and `String.Split` on `' '` with `RemoveEmptyEntries`.
- `vigenere.dfy`, `polybe.dfy` and `bazeries.dfy` hold one cipher each.

Three places where this model follows the code rather than an idealised description of the ciphers:

- Non-letters are upper-cased and kept in place, not dropped.
- K sits at row 2, column 5, so "BACK" encrypts to "12 11 13 25".
- The Bazeries shift is `cle * cle` as an `int`, not reduced mod 26 before use.

## Model

| member | source | states |
|---|---|---|
| DotNet.ToUpper | Fonctions.cs:10 | ASCII `ToUpper`: a..z go to A..Z at the same offset, everything else is unchanged, and letters stay letters |
| DotNet.Rem26 | Fonctions.cs:15 | C#'s `% 26`: congruent to the dividend mod 26, strictly between -26 and 26, with the sign of the dividend |
| DotNet.Wrap32 | Fonctions.cs:136 | the 32-bit result of an `int` operation: congruent mod 2^32, and the exact value when it fits |
| DotNet.DigitString | Fonctions.cs:79 | `(n).ToString()` for 0..9 is the single digit whose value is n |
| DotNet.ParseDigit | Fonctions.cs:111-112 | `int.Parse` of one digit gives 0..9, and `DigitString` of the value gives the digit back |
| DotNet.TrimStart | Fonctions.cs:91 | removes exactly the leading white space: a suffix of the input, with only white space removed and no white space at the front |
| DotNet.TrimEnd | Fonctions.cs:91 | removes exactly the trailing white space: a prefix of the input, with only white space removed and no white space at the end |
| DotNet.Trim | Fonctions.cs:91 | the result is the slice of the input at some offset i, with only white space before i and after the slice, and it starts and ends with non-white characters (or is empty) |
| DotNet.Split | Fonctions.cs:105 | with `RemoveEmptyEntries` every part is non-empty and contains no space, and the parts joined give the input with every space removed |
| DotNet.SplitWord | Fonctions.cs:105 | a non-empty word with no space is one part on its own |
| DotNet.SplitLeadingSpaces | Fonctions.cs:105 | spaces in front of the text produce no part |
| DotNet.SplitWordSpace | Fonctions.cs:105 | a word followed by a space comes off the front of Split as one part |
| DotNet.SplitTrim | Fonctions.cs:91-105 | trimming text whose only white space is `' '` does not change the parts Split finds |
| Vigenere.Decalage | Fonctions.cs:14 | for a key of upper-case letters, the shift `cle[indexCle % cle.Length] - 'A'` lies in 0..25 |
| Vigenere.EncryptChar | Fonctions.cs:15 | an upper-case letter shifted by d >= 0 lands in A..Z, at offset (c - 'A' + d) mod 26 |
| Vigenere.DecryptChar | Fonctions.cs:38 | an upper-case letter shifted back by d in 0..26 lands in A..Z, at offset (c - 'A' - d) mod 26 |
| Vigenere.TransformAppend | Fonctions.cs:10-22 | encrypting a + b is encrypting a, then b with the key index advanced by the number of letters in a |
| Vigenere.TransformAt | Fonctions.cs:10-22 | character i of the result is the step for u[i] at key index "letters before i", so non-letters use no key position |
| Vigenere.TransformNoLetter | Fonctions.cs:19-22 | text without letters comes back unchanged, whatever the key |
| Vigenere.EncryptShape | Fonctions.cs:4-25 | for a key of letters: same length; letter i becomes an upper-case letter shifted by key letter number (letters before i) mod the key length; non-letters stay |
| Vigenere.SameShape | Fonctions.cs:12-22 | letters and non-letters keep their positions in either direction, and letters come out upper-case |
| Vigenere.StepInverse | Fonctions.cs:14-15 | for an upper-case key, the decryption step undoes the encryption step at the same key index, and the other way round |
| Vigenere.TransformInverse | Fonctions.cs:4-48 | on upper-cased text, either direction followed by the other with the same key gives the text back |
| Vigenere.TransformIsUpper | Fonctions.cs:4-48 | the output of either direction is already upper-case |
| Vigenere.RoundTrip | Fonctions.cs:4-48 | for a key of letters, DecryptVigenere(CryptVigenere(t, k), k) is ToUpper(t) |
| Vigenere.RoundTripReverse | Fonctions.cs:4-48 | for a key of letters, CryptVigenere(DecryptVigenere(t, k), k) is ToUpper(t) |
| Vigenere.ExampleEncrypt | Fonctions.cs:4-25 | CryptVigenere("ATTACKATDAWN", "LEMON") is "LXFOPVEFRNHR" |
| Vigenere.ExampleDecrypt | Fonctions.cs:27-48 | DecryptVigenere("LXFOPVEFRNHR", "LEMON") is "ATTACKATDAWN" |
| Vigenere.CryptVigenere | Fonctions.cs:4-25 | throws DivideByZeroException exactly when the key is empty and the upper-cased text has a letter; otherwise returns `Ok` of `VigenereEncrypt`, as `Outcome` states |
| Vigenere.DecryptVigenere | Fonctions.cs:27-48 | throws DivideByZeroException exactly when the key is empty and the upper-cased text has a letter; otherwise returns `Ok` of `VigenereDecrypt`, as `Outcome` states |
| Polybe.NewCarre | Fonctions.cs:54-60 | the array initializer builds a fresh 5×5 array whose cell (l, c) holds the table letter 5l + c |
| Polybe.Locate | Fonctions.cs:73-85 | the cell, counted row after row, that holds c, or none when no cell does |
| Polybe.InSquare | Fonctions.cs:54-60 | the characters found in carre are exactly the upper-case letters other than J |
| Polybe.TableDistinct | Fonctions.cs:54-60 | no letter appears in two cells |
| Polybe.CodeCases | Fonctions.cs:66-87 | J gets 24, the token of I; a letter of carre gets two digits in 1..5 naming its row and column; any other character is its own token |
| Polybe.CodeOfCell | Fonctions.cs:79 | the letter in row l, column c is not J and gets the token (l + 1)(c + 1) |
| Polybe.SearchCarre | Fonctions.cs:72-87 | the nested search finds c exactly when it is an upper-case letter other than J, and then returns its token |
| Polybe.CryptPolybe | Fonctions.cs:51-92 | returns `PolybeEncrypt(texte)`: J writes 24, every other character writes its token and a space, and the whole is trimmed |
| Polybe.DecodeTokenCases | Fonctions.cs:109-126 | a two-character token with both digits in 1..5 becomes the letter of that cell; any other token is copied unchanged |
| Polybe.DecryptPolybe | Fonctions.cs:94-130 | returns `PolybeDecrypt(texte)`, which is `DecodeAll(Split(texte))`: the concatenation of the decoded tokens of the text split on spaces |
| Polybe.DecodeCode | Fonctions.cs:51-130 | the token of any character decodes to that character, and J to I |
| Polybe.DecodeCodes | Fonctions.cs:104-127 | decoding the tokens of a text gives the text back with every J as I |
| Polybe.DecryptNoSpace | Fonctions.cs:104-129 | DecryptPolybe never writes a space: separators are not put back |
| Polybe.RawWithoutJ | Fonctions.cs:64-89 | without J, CryptPolybe's loop writes a separator after every token |
| Polybe.SplitRawFixed | Fonctions.cs:88-105 | on text without white space, the tokens separated by spaces split back into one token per character |
| Polybe.FixedRoundTrip | Fonctions.cs:51-130 | with a separator after J too, DecryptPolybe undoes encryption of any text without white space, with J coming back as I |
| Polybe.EncryptWithoutJ | Fonctions.cs:66-70 | on text with no J, CryptPolybe writes what the encoding with a separator after J writes |
| Polybe.RoundTrip | Fonctions.cs:51-130 | DecryptPolybe(CryptPolybe(t)) is ToUpper(t) for text without J and without white space |
| Polybe.ExampleBack | Fonctions.cs:51-92 | CryptPolybe("BACK") is "12 11 13 25" |
| Polybe.ExampleJ | Fonctions.cs:66-70 | CryptPolybe("J") and CryptPolybe("I") are both "24" |
| Polybe.ExampleJA | Fonctions.cs:66-70 | CryptPolybe("JA") is "2411" |
| Polybe.ExampleSplit | Fonctions.cs:105 | "12 9X 13" splits into 12, 9X and 13 |
| Polybe.ExampleDecrypt | Fonctions.cs:94-130 | DecryptPolybe("12 9X 13") is "B9XC" |
| Polybe.TabSurvives | Fonctions.cs:51-130 | a tab inside the text survives the round trip: DecryptPolybe(CryptPolybe("A\tB")) is "A\tB" |
| Polybe.ExampleTabEncrypt | Fonctions.cs:51-92 | CryptPolybe("A\tB") is "11 \t 12" |
| Polybe.ExampleTabSplit | Fonctions.cs:105 | "11 \t 12" splits into 11, the tab and 12 |
| Polybe.ExampleTabDecrypt | Fonctions.cs:94-130 | DecryptPolybe("11 \t 12") is "A\tB" |
| Polybe.JSeparatorBreaksRoundTrip | Fonctions.cs:66-70 | "JA" comes back from DecryptPolybe(CryptPolybe(...)) as "2411", but as "IA" with the separator |
| Bazeries.DecalageSquare | Fonctions.cs:136 | for -46340 <= cle <= 46340, `cle * cle` does not wrap and lies in 0..46340² |
| Bazeries.EncryptCharShape | Fonctions.cs:143 | with such a shift, an upper-case letter lands in A..Z at offset (c - 'A' + d) mod 26 |
| Bazeries.DecryptCharShape | Fonctions.cs:164 | with a shift of at most 26, an upper-case letter lands in A..Z at offset (c - 'A' - d) mod 26 |
| Bazeries.TransformAt | Fonctions.cs:139-150 | character k of the result is the shift of character k of the upper-cased text |
| Bazeries.KeepsShape | Fonctions.cs:133-174 | for every key, CryptBazeries and DecryptBazeries keep the length and copy every non-letter to its position |
| Bazeries.EncryptShape | Fonctions.cs:133-153 | CryptBazeries keeps the length and the non-letters, and moves each letter cle * cle places forward mod 26 into A..Z |
| Bazeries.CharRoundTrip | Fonctions.cs:143-164 | with a shift of at most 26, decrypting undoes encrypting a letter and encrypting undoes decrypting |
| Bazeries.RoundTrip | Fonctions.cs:133-174 | for cle * cle <= 26, DecryptBazeries(CryptBazeries(t, cle), cle) is ToUpper(t) |
| Bazeries.RoundTripReverse | Fonctions.cs:133-174 | for cle * cle <= 26, CryptBazeries(DecryptBazeries(t, cle), cle) is ToUpper(t) |
| Bazeries.LostLetter | Fonctions.cs:164 | for a shift in 27..46340², some upper-case letter is not recovered by decryption |
| Bazeries.RoundTripIff | Fonctions.cs:133-174 | for -46340 <= cle <= 46340, DecryptBazeries undoes CryptBazeries on every text if and only if cle * cle <= 26 |
| Bazeries.ExampleHello | Fonctions.cs:133-174 | CryptBazeries("HELLO", 3) is "QNUUX", and DecryptBazeries("QNUUX", 3) is "HELLO" |
| Bazeries.ExampleLostLetter | Fonctions.cs:164 | with key 6, "Z" encrypts to "J" and "J" decrypts to "@" |
| Bazeries.CharRoundTripFixed | Fonctions.cs:164 | with a non-negative remainder, decryption recovers every letter for every shift in 0..46340² |
| Bazeries.FixedRoundTrip | Fonctions.cs:155-174 | with a non-negative remainder, decryption undoes CryptBazeries for every key in -46340..46340 |
| Bazeries.CryptBazeries | Fonctions.cs:133-153 | returns `BazeriesEncrypt(texte, cle)`, with the shift `cle * cle` wrapped to 32 bits |
| Bazeries.DecryptBazeries | Fonctions.cs:155-174 | returns `BazeriesDecrypt(texte, cle)`, with the same 32-bit arithmetic |

## Left out

- Program.cs is not part of this model. It holds the console menu, the prompts, the pseudonym banner and the yes/no continuation: interactive I/O with global mutable state.
- `DemanderTexte`, `DemanderMethode`, `DemanderCleVigenere`, `DemanderCleNumerique` and the `Crypter*`/`Decrypter*` functions are not part of this model. Program.cs calls them, but Fonctions.cs does not define them, so their key validation is not known.
- Characters are modelled on ASCII. `char.IsLetter`, `char.IsDigit`, `ToUpper` and `int.Parse` on other characters depend on Unicode tables and the culture, so they are left out. `char.IsWhiteSpace` is modelled with the full .NET list, because `Trim` uses it. One error path is lost with this: `char.IsDigit` (Fonctions.cs:109) also accepts non-ASCII decimal digits, such as the Arabic-Indic ones, and `int.Parse` (Fonctions.cs:111-112) then throws `FormatException` on them. The model treats such a token as a non-digit and copies it.
- A C# `char` is a UTF-16 code unit and a Dafny `char` is a Unicode scalar value. The `(char)` casts of the source only ever convert values in 40..90 here, so the 16-bit truncation of those casts is not modelled.
- Strings are values. The cost of repeated `+=` on immutable C# strings is not modelled.
- Polybe.SearchCarre: the source writes the nested `for` loops with `trouve` and `break` inline in `CryptPolybe`. Here they are a method of their own that `CryptPolybe` calls, with the same loops, flag and breaks.
- Polybe.RoundTrip: stated for text without J and without white space. A space in the text becomes a token of its own, which `Split` then drops wherever it stands. Other white space, such as a tab, is lost only at the two ends, where `Trim` removes it; inside the text it comes back (`Polybe.TabSurvives`). J is the finding below.
- Vigenere.RoundTrip: stated for keys of letters. A key holding a non-letter gives a shift outside 0..25, for which the source makes no promise.
- Bazeries.EncryptShape: the letter offset is stated for -46340 <= cle <= 46340. Beyond that, `cle * cle` wraps around in 32 bits. Length and non-letters are stated for every key by `Bazeries.KeepsShape`. `CryptBazeries` and `DecryptBazeries` themselves model the wrap-around for every key.
- Bazeries.RoundTripIff: stated for -46340 <= cle <= 46340, for the same reason.

## Findings

| source | as written | input that shows it | evidently intended | confidence | as-written member | corrected member |
|---|---|---|---|---|---|---|
| Fonctions.cs:66-70 | after `resultat += "24"`, the `continue` skips the separator `resultat += " "` | "JA" encrypts to "2411", which DecryptPolybe copies back unchanged as "2411" | J's token followed by a space like every other token, so "JA" gives "24 11" and decrypts to "IA" | medium, not executed | Polybe.JSeparatorBreaksRoundTrip | Polybe.FixedRoundTrip |
| Fonctions.cs:164 | `(c - 'A' - decalage + 26) % 26` with C#'s truncating `%` goes negative once cle * cle > 26 | key 6: "Z" encrypts to "J", and "J" decrypts to "@" | a non-negative remainder, `((c - 'A' - decalage) % 26 + 26) % 26`, so that every key round-trips | high, not executed | Bazeries.ExampleLostLetter | Bazeries.FixedRoundTrip |
