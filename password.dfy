/**
 * The daily access password of server.js (`generateDailyPassword`).
 *
 * The source draws each character with `Math.floor(Math.random() * chars.length)`.
 * Here the random source is abstracted as the sequence of indices it produced:
 * eight draws, each in [0, 55).
 */
module DailyPassword {
  import opened Common

  /**
   * The 55 characters a password is drawn from: no 0, 1, I, O, i, l or o.
   * It is the string "ABCDEFGHJKLMNPQRSTUVWXYZabcdefghjkmnpqrstuvwxyz23456789",
   * written as its runs of consecutive character codes so that the verifier
   * can index into it.
   */
  const ALPHABET: string := UPPERCASE + LOWERCASE + DIGITS

  /** The 24 capital letters of ALPHABET. */
  const UPPERCASE: string := "ABCDEFGH" + "JKLMN" + "PQRSTUVWXYZ"

  /** The 23 small letters of ALPHABET. */
  const LOWERCASE: string := "abcdefgh" + "jk" + "mn" + "pqrstuvwxyz"

  /** The 8 digits of ALPHABET. */
  const DIGITS: string := "23456789"

  /** Number of characters in one password (the bound of the `for` loop). */
  const PASSWORD_LENGTH := 8

  /** Characters left out of the alphabet because they are easily confused. */
  const LOOKALIKES := "01IOilo"

  /** What the random source can produce: one index into ALPHABET per character. */
  predicate ValidDraws(draws: seq<int>)
  {
    |draws| == PASSWORD_LENGTH && forall i :: 0 <= i < |draws| ==> 0 <= draws[i] < |ALPHABET|
  }

  /** The password built from the draws: character i is ALPHABET[draws[i]]. */
  predicate Spells(password: string, draws: seq<int>)
    requires ValidDraws(draws)
  {
    |password| == PASSWORD_LENGTH && forall i :: 0 <= i < |password| ==> password[i] == ALPHABET[draws[i]]
  }

  /**
   * Builds the password one character at a time, appending the character
   * each draw selects, as the `for` loop of the source does.
   */
  method GenerateDailyPassword(draws: seq<int>) returns (password: string)
    requires ValidDraws(draws)
    ensures Spells(password, draws)
    ensures forall i :: 0 <= i < |password| ==> password[i] in ALPHABET
  {
    password := "";
    for i := 0 to PASSWORD_LENGTH
      invariant |password| == i
      invariant forall j :: 0 <= j < i ==> password[j] == ALPHABET[draws[j]]
    {
      password := password + [ALPHABET[draws[i]]];
    }
  }

  /**
   * The position of a character in ALPHABET, or None when it is not there.
   * It is computed from the character's code, not by searching ALPHABET,
   * so that it is an independent description of the alphabet.
   */
  function IndexOf(c: char): Option<int>
  {
    if 'A' <= c <= 'H' then Some(c as int - 'A' as int)
    else if 'J' <= c <= 'N' then Some(c as int - 'A' as int - 1)
    else if 'P' <= c <= 'Z' then Some(c as int - 'A' as int - 2)
    else if 'a' <= c <= 'h' then Some(24 + c as int - 'a' as int)
    else if 'j' <= c <= 'k' then Some(23 + c as int - 'a' as int)
    else if 'm' <= c <= 'n' then Some(22 + c as int - 'a' as int)
    else if 'p' <= c <= 'z' then Some(21 + c as int - 'a' as int)
    else if '2' <= c <= '9' then Some(47 + c as int - '2' as int)
    else None
  }

  /** IndexOf and ALPHABET describe the same 55 characters, in the same order. */
  lemma IndexOfIsInverse(c: char, k: int)
    ensures IndexOf(c) == Some(k) <==> 0 <= k < |ALPHABET| && ALPHABET[k] == c
  {
    if 0 <= k < |ALPHABET| && ALPHABET[k] == c {
      AlphabetDecodes(k);
    }
    if IndexOf(c) == Some(k) {
      assert 0 <= k < |ALPHABET|;
      AlphabetDecodes(k);
      IndexOfInjective(c, ALPHABET[k]);
    }
  }

  /** Different characters never decode to the same index. */
  lemma IndexOfInjective(c: char, d: char)
    requires IndexOf(c).Some? && IndexOf(c) == IndexOf(d)
    ensures c == d
  {
  }

  lemma AlphabetDecodes(k: int)
    requires 0 <= k < |ALPHABET|
    ensures IndexOf(ALPHABET[k]) == Some(k)
  {
    if k < 24 {
      assert ALPHABET[k] == UPPERCASE[k];
      UppercaseDecodes(k);
    } else if k < 47 {
      assert ALPHABET[k] == LOWERCASE[k - 24];
      LowercaseDecodes(k - 24);
    } else {
      assert ALPHABET[k] == DIGITS[k - 47];
    }
  }

  lemma UppercaseDecodes(k: int)
    requires 0 <= k < |UPPERCASE|
    ensures IndexOf(UPPERCASE[k]) == Some(k)
  {
    if k < 8 { assert UPPERCASE[k] == "ABCDEFGH"[k]; }
    else if k < 13 { assert UPPERCASE[k] == "JKLMN"[k - 8]; }
    else { assert UPPERCASE[k] == "PQRSTUVWXYZ"[k - 13]; }
  }

  lemma LowercaseDecodes(k: int)
    requires 0 <= k < |LOWERCASE|
    ensures IndexOf(LOWERCASE[k]) == Some(24 + k)
  {
    if k < 8 { assert LOWERCASE[k] == "abcdefgh"[k]; }
    else if k < 10 { assert LOWERCASE[k] == "jk"[k - 8]; }
    else if k < 12 { assert LOWERCASE[k] == "mn"[k - 10]; }
    else { assert LOWERCASE[k] == "pqrstuvwxyz"[k - 12]; }
  }

  /** The alphabet has 55 pairwise distinct characters. */
  lemma AlphabetDistinct(i: int, j: int)
    requires 0 <= i < |ALPHABET| && 0 <= j < |ALPHABET|
    ensures |ALPHABET| == 55
    ensures ALPHABET[i] == ALPHABET[j] ==> i == j
  {
    AlphabetDecodes(i);
    AlphabetDecodes(j);
  }

  /** No look-alike character is in the alphabet. */
  lemma NoLookalikes(c: char)
    requires c in LOOKALIKES
    ensures c !in ALPHABET
  {
    if c in ALPHABET {
      var k :| 0 <= k < |ALPHABET| && ALPHABET[k] == c;
      AlphabetDecodes(k);
    }
  }

  /** Reads the draws back from a password: None if any character is not in ALPHABET. */
  function Decode(password: string): (draws: Option<seq<int>>)
  {
    if password == [] then Some([])
    else match (IndexOf(password[0]), Decode(password[1..]))
      case (Some(k), Some(rest)) => Some([k] + rest)
      case _ => None
  }

  /** The password determines the draws: Decode inverts generation. */
  lemma {:induction false} DecodeSpelled(password: string, draws: seq<int>)
    requires ValidDraws(draws) && Spells(password, draws)
    ensures Decode(password) == Some(draws)
  {
    DecodeSuffix(password, draws, 0);
  }

  lemma {:induction false} DecodeSuffix(password: string, draws: seq<int>, n: nat)
    requires ValidDraws(draws) && Spells(password, draws) && n <= |password|
    ensures Decode(password[n..]) == Some(draws[n..])
    decreases |password| - n
  {
    if n < |password| {
      DecodeSuffix(password, draws, n + 1);
      AlphabetDecodes(draws[n]);
      assert password[n..][1..] == password[n + 1..];
      assert draws[n..] == [draws[n]] + draws[n + 1..];
    } else {
      assert password[n..] == [] && draws[n..] == [];
    }
  }

  /** Whatever decodes is spelled from ALPHABET, one draw per character. */
  lemma {:induction false} DecodeSound(password: string, draws: seq<int>)
    requires Decode(password) == Some(draws)
    ensures |draws| == |password|
    ensures forall i :: 0 <= i < |password| ==> 0 <= draws[i] < |ALPHABET| && ALPHABET[draws[i]] == password[i]
  {
    if password != [] {
      var rest := Decode(password[1..]).value;
      DecodeSound(password[1..], rest);
      IndexOfIsInverse(password[0], draws[0]);
      assert draws == [draws[0]] + rest;
      forall i | 1 <= i < |password| ensures ALPHABET[draws[i]] == password[i] {
        assert draws[i] == rest[i - 1] && password[i] == password[1..][i - 1];
      }
    }
  }

  /**
   * The passwords the generator can produce are exactly the 8-character
   * strings that decode, that is, the 8-character strings over ALPHABET.
   */
  lemma PossiblePasswords(password: string)
    ensures (exists draws :: ValidDraws(draws) && Spells(password, draws)) <==>
      |password| == PASSWORD_LENGTH && Decode(password).Some?
  {
    if |password| == PASSWORD_LENGTH && Decode(password).Some? {
      DecodeSound(password, Decode(password).value);
      assert ValidDraws(Decode(password).value);
    }
    if exists draws :: ValidDraws(draws) && Spells(password, draws) {
      var draws :| ValidDraws(draws) && Spells(password, draws);
      DecodeSpelled(password, draws);
    }
  }

  /**
   * Two different sequences of draws never give the same password, so each of
   * the 55^8 outcomes of the random source yields its own password.
   */
  lemma DistinctDrawsDistinctPasswords(p1: string, d1: seq<int>, p2: string, d2: seq<int>)
    requires ValidDraws(d1) && Spells(p1, d1)
    requires ValidDraws(d2) && Spells(p2, d2)
    requires d1 != d2
    ensures p1 != p2
  {
    DecodeSpelled(p1, d1);
    DecodeSpelled(p2, d2);
  }
}
