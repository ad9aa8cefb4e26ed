/**
  `random_token` of py/oauth.py: a string of `length` characters, each drawn
  by `rand.choice` from `ASCII_DIGITS`. The draws of the operating system's
  random source are a parameter: `choices[i]` is the index chosen for
  character `i`.
 */
module Tokens {
  import opened Strings

  /** Length of the nonce and of the multipart boundary token (`random_token(42)`). */
  const TokenLength := 42

  predicate ValidChoices(choices: seq<nat>, length: nat)
  {
    |choices| == length && forall i :: 0 <= i < |choices| ==> choices[i] < |AsciiLettersAndDigits|
  }

  /** `random_token(length)` */
  function RandomToken(length: nat, choices: seq<nat>): (token: string)
    requires ValidChoices(choices, length)
    ensures |token| == length
    ensures forall i :: 0 <= i < |token| ==> IsAsciiAlphanumeric(token[i])
  {
    var token := seq(length, i requires 0 <= i < length => AsciiLettersAndDigits[choices[i]]);
    forall i | 0 <= i < length ensures IsAsciiAlphanumeric(token[i]) {
      LettersAndDigitsAreAlphanumeric(choices[i]);
    }
    token
  }

  /** Conversely every alphanumeric string is a token the generator can return. */
  lemma EveryAlphanumericStringIsAToken(t: string)
    requires forall i :: 0 <= i < |t| ==> IsAsciiAlphanumeric(t[i])
    ensures exists choices :: ValidChoices(choices, |t|) && RandomToken(|t|, choices) == t
  {
    var choices := seq(|t|, i requires 0 <= i < |t| => AlphanumericIndex(t[i]));
    assert ValidChoices(choices, |t|);
    assert RandomToken(|t|, choices) == t;
  }
}
