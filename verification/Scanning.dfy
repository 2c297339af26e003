/** Maximal runs of a character class, as a regular expression's `[...]*` takes them. */
module Scanning {

  /** Length of the longest prefix whose characters all satisfy `p`. */
  function Run(p: char -> bool, s: string): (n: nat)
    ensures n <= |s|
    ensures n < |s| ==> !p(s[n])
  {
    if s == "" || !p(s[0]) then 0 else 1 + Run(p, s[1..])
  }

  predicate All(p: char -> bool, s: string) {
    forall c <- s :: p(c)
  }

  lemma AllOfSum(p: char -> bool, a: string, b: string)
    ensures All(p, a + b) <==> All(p, a) && All(p, b)
  {
    if All(p, a + b) {
      assert forall c <- a :: c in a + b;
      assert forall c <- b :: c in a + b;
    }
  }

  lemma {:induction false} RunStops(p: char -> bool, word: string, rest: string)
    requires All(p, word) && (rest == "" || !p(rest[0]))
    ensures Run(p, word + rest) == |word|
  {
    if word == "" {
      assert word + rest == rest;
    } else {
      assert (word + rest)[1..] == word[1..] + rest;
      RunStops(p, word[1..], rest);
    }
  }

  lemma {:induction false} RunIsAll(p: char -> bool, s: string)
    ensures All(p, s[..Run(p, s)])
  {
    if s != "" && p(s[0]) {
      RunIsAll(p, s[1..]);
      assert s[..Run(p, s)] == [s[0]] + s[1..][..Run(p, s[1..])];
    }
  }
}
