/**
 * Short-code generation (api/routes.py, generate_short_code): a code of a fixed
 * length whose every symbol is drawn from the ASCII letters and digits. The
 * cryptographic random source is modelled as an arbitrary choice.
 */
module ShortCodes {

  /** The `count` consecutive characters starting at `first`. */
  function CharRange(first: char, count: nat): (r: string)
    requires (first as int) + count <= 0xD800
    ensures |r| == count
    ensures forall k :: 0 <= k < count ==> r[k] as int == (first as int) + k
  {
    seq(count, k requires 0 <= k < count => ((first as int) + k) as char)
  }

  /** `string.ascii_letters + string.digits`: a-z, A-Z, then 0-9. */
  const Alphabet: string := CharRange('a', 26) + CharRange('A', 26) + CharRange('0', 10)

  /** The code length the create handler asks for. */
  const DefaultLength: nat := 6

  predicate IsAsciiLetterOrDigit(c: char) {
    ('a' <= c <= 'z') || ('A' <= c <= 'Z') || ('0' <= c <= '9')
  }

  /** A code of exactly `length` symbols of the alphabet. */
  predicate IsShortCode(code: string, length: nat) {
    |code| == length && forall k :: 0 <= k < |code| ==> code[k] in Alphabet
  }

  /** The alphabet has 62 positions, and a character is in it exactly when it is an ASCII letter or digit. */
  lemma {:induction false} AlphabetIsLettersAndDigits(c: char)
    ensures |Alphabet| == 62
    ensures c in Alphabet <==> IsAsciiLetterOrDigit(c)
  {
    if 'a' <= c <= 'z' {
      assert Alphabet[(c as int) - ('a' as int)] == c;
    } else if 'A' <= c <= 'Z' {
      assert Alphabet[26 + (c as int) - ('A' as int)] == c;
    } else if '0' <= c <= '9' {
      assert Alphabet[52 + (c as int) - ('0' as int)] == c;
    } else {
      forall k | 0 <= k < |Alphabet| ensures Alphabet[k] != c {
        assert IsAsciiLetterOrDigit(Alphabet[k]);
      }
    }
  }

  /** Draws `length` symbols one after another, each an arbitrary member of the alphabet. */
  method GenerateShortCode(length: nat) returns (code: string)
    ensures IsShortCode(code, length)
    ensures forall k :: 0 <= k < |code| ==> IsAsciiLetterOrDigit(code[k])
  {
    code := "";
    while |code| < length
      invariant |code| <= length
      invariant forall k :: 0 <= k < |code| ==> code[k] in Alphabet
    {
      assert Alphabet[0] in Alphabet;
      var c :| c in Alphabet;
      code := code + [c];
    }
    forall k | 0 <= k < |code| ensures IsAsciiLetterOrDigit(code[k]) {
      AlphabetIsLettersAndDigits(code[k]);
    }
  }
}
