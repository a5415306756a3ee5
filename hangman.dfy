/** The guess logic of Hangman/hangman.rb, in both of its spellings: the
    `Hangman` class (guess_letter, answering :already, :correct or :wrong)
    and the `GameState` class (submit, answering :already, :hit or :miss).
    Both keep the lower-cased secret, a row of revealed letters ('_' where a
    letter is still hidden) and the list of wrong letters in the order they
    were guessed. A guess is one character. */
module Hangman {

  const HIDDEN: char := '_'
  /** MAX_INCORRECT and MAX_MISTAKES, the default number of wrong guesses allowed. */
  const MAX_INCORRECT: int := 6

  /** :already, :correct (:hit in GameState) or :wrong (:miss in GameState). */
  datatype Outcome = Already | Correct | Wrong

  /** String#downcase on one ASCII character. */
  function Downcase(c: char): (r: char)
    ensures 'A' <= c <= 'Z' ==> 'a' <= r <= 'z' && r as int - c as int == 32
    ensures !('A' <= c <= 'Z') ==> r == c
  {
    if 'A' <= c <= 'Z' then (c as int + 32) as char else c
  }

  function DowncaseAll(s: string): string
  {
    seq(|s|, i requires 0 <= i < |s| => Downcase(s[i]))
  }

  /** The row after revealing letter l: every index whose secret letter is l
      shows l, every other index is as it was. */
  function Reveal(secret: string, shown: seq<char>, l: char): seq<char>
    requires |shown| == |secret|
  {
    seq(|secret|, i requires 0 <= i < |secret| => if secret[i] == l then l else shown[i])
  }

  predicate NoDuplicates(s: seq<char>)
  {
    forall i, j :: 0 <= i < j < |s| ==> s[i] != s[j]
  }

  /** What every reachable state satisfies: the row is as long as the secret,
      a shown letter is the secret's letter at that index and is shown at
      every index holding it, and the wrong letters are distinct letters
      that the secret does not contain. */
  ghost predicate Consistent(secret: string, shown: seq<char>, wrong: seq<char>)
  {
    && |shown| == |secret|
    && (forall i :: 0 <= i < |shown| && shown[i] != HIDDEN ==> shown[i] == secret[i])
    && (forall i, j :: 0 <= i < |shown| && 0 <= j < |secret| && shown[i] != HIDDEN && secret[j] == shown[i] ==> shown[j] == shown[i])
    && NoDuplicates(wrong)
    && (forall k :: 0 <= k < |wrong| ==> wrong[k] !in secret)
  }

  /** Number of letters still hidden. */
  function Hidden(shown: seq<char>): nat
  {
    if shown == [] then 0 else Hidden(shown[..|shown| - 1]) + (if shown[|shown| - 1] == HIDDEN then 1 else 0)
  }

  lemma {:induction false} HiddenPointwise(a: seq<char>, b: seq<char>)
    requires |a| == |b|
    requires forall i :: 0 <= i < |a| && a[i] != HIDDEN ==> b[i] != HIDDEN
    ensures Hidden(b) <= Hidden(a)
    ensures (exists i :: 0 <= i < |a| && a[i] == HIDDEN && b[i] != HIDDEN) ==> Hidden(b) < Hidden(a)
    decreases |a|
  {
    if a != [] {
      var n := |a| - 1;
      HiddenPointwise(a[..n], b[..n]);
      if exists i :: 0 <= i < |a| && a[i] == HIDDEN && b[i] != HIDDEN {
        var i :| 0 <= i < |a| && a[i] == HIDDEN && b[i] != HIDDEN;
        if i < n {
          assert a[..n][i] == HIDDEN && b[..n][i] != HIDDEN;
        }
      }
    }
  }

  /** A new game: every letter hidden, no wrong letters. */
  lemma NewGameConsistent(secret: string)
    ensures Consistent(DowncaseAll(secret), seq(|secret|, i => HIDDEN), [])
  {
  }

  /** A correct guess (a letter of the secret not guessed before) keeps the
      state consistent and shows strictly more letters. */
  lemma RevealProgress(secret: string, shown: seq<char>, wrong: seq<char>, l: char)
    requires Consistent(secret, shown, wrong)
    requires l in secret && l !in shown && l !in wrong
    ensures Consistent(secret, Reveal(secret, shown, l), wrong)
    ensures Hidden(Reveal(secret, shown, l)) < Hidden(shown)
  {
    var r := Reveal(secret, shown, l);
    var j :| 0 <= j < |secret| && secret[j] == l;
    assert shown[j] == HIDDEN;
    forall i, k | 0 <= i < |r| && 0 <= k < |secret| && r[i] != HIDDEN && secret[k] == r[i]
      ensures r[k] == r[i]
    {
      if secret[i] != l {
        assert r[i] == shown[i];
      }
    }
    HiddenPointwise(shown, r);
    assert r[j] == l;
  }

  /** A wrong guess (a letter not in the secret, not guessed before) keeps the
      state consistent and costs one remaining guess. */
  lemma MissKeepsConsistent(secret: string, shown: seq<char>, wrong: seq<char>, l: char)
    requires Consistent(secret, shown, wrong)
    requires l !in secret && l !in wrong
    ensures Consistent(secret, shown, wrong + [l])
    ensures |wrong + [l]| == |wrong| + 1
  {
  }

  /** With no '_' left in the row (game_won?), the row spells the secret,
      provided the secret itself holds no '_'. */
  lemma {:induction false} WonMeansSolved(secret: string, shown: seq<char>, wrong: seq<char>)
    requires Consistent(secret, shown, wrong)
    requires HIDDEN !in secret
    ensures HIDDEN !in shown <==> shown == secret
  {
    if HIDDEN !in shown {
      forall i | 0 <= i < |shown| ensures shown[i] == secret[i] {
        assert shown[i] != HIDDEN;
      }
    }
  }

  /** already_guessed? also looks at the '_' placeholders, so guessing '_'
      while a letter is still hidden answers :already. */
  lemma UnderscoreCountsAsGuessed(shown: seq<char>, wrong: seq<char>)
    requires HIDDEN in shown
    ensures Guessed(shown, wrong, HIDDEN)
  {
  }

  /** already_guessed? / guessed?: the letter is in the row or among the wrong letters. */
  predicate Guessed(shown: seq<char>, wrong: seq<char>, l: char)
  {
    l in shown || l in wrong
  }

  /** The first spelling of the game. */
  class Hangman {
    var secret: string
    var correctLetters: seq<char>
    var wrongLetters: seq<char>
    var maxIncorrect: int

    ghost predicate Valid()
      reads this
    {
      Consistent(secret, correctLetters, wrongLetters)
    }

    /** initialize: lower-cases the secret and hides every letter. */
    constructor (word: string, maxIncorrect: int)
      ensures Valid()
      ensures secret == DowncaseAll(word)
      ensures correctLetters == seq(|word|, i => HIDDEN) && wrongLetters == []
      ensures this.maxIncorrect == maxIncorrect
    {
      secret := DowncaseAll(word);
      correctLetters := seq(|word|, i => HIDDEN);
      wrongLetters := [];
      this.maxIncorrect := maxIncorrect;
    }

    /** remaining_guesses. */
    function RemainingGuesses(): (r: int)
      reads this
      ensures r + |wrongLetters| == maxIncorrect
    {
      maxIncorrect - |wrongLetters|
    }

    /** game_won?: no '_' left. In a consistent game whose secret has no '_'
        this means the whole secret is shown. */
    function GameWon(): (r: bool)
      reads this
      ensures Valid() && HIDDEN !in secret ==> (r <==> correctLetters == secret)
    {
      assert Valid() && HIDDEN !in secret ==> (HIDDEN !in correctLetters <==> correctLetters == secret) by {
        if Valid() && HIDDEN !in secret {
          WonMeansSolved(secret, correctLetters, wrongLetters);
        }
      }
      HIDDEN !in correctLetters
    }

    /** game_lost?: no guesses remain. */
    function GameLost(): (r: bool)
      reads this
      ensures r <==> |wrongLetters| >= maxIncorrect
    {
      RemainingGuesses() <= 0
    }

    /** guess_letter: lower-cases the letter; a repeated letter changes nothing;
        a letter of the secret is revealed at every index holding it; any
        other letter is appended to the wrong letters. */
    method GuessLetter(letter: char) returns (r: Outcome)
      requires Valid()
      modifies this
      ensures Valid()
      ensures secret == old(secret) && maxIncorrect == old(maxIncorrect)
      ensures r == Already <==> Guessed(old(correctLetters), old(wrongLetters), Downcase(letter))
      ensures r == Correct <==> !Guessed(old(correctLetters), old(wrongLetters), Downcase(letter)) && Downcase(letter) in secret
      ensures r == Already ==> correctLetters == old(correctLetters) && wrongLetters == old(wrongLetters)
      ensures r == Correct ==> correctLetters == Reveal(secret, old(correctLetters), Downcase(letter)) && wrongLetters == old(wrongLetters)
      ensures r == Wrong ==> correctLetters == old(correctLetters) && wrongLetters == old(wrongLetters) + [Downcase(letter)]
    {
      var l := Downcase(letter);
      if Guessed(correctLetters, wrongLetters, l) {
        return Already;
      }
      if l in secret {
        RevealProgress(secret, correctLetters, wrongLetters, l);
        for idx := 0 to |secret|
          invariant secret == old(secret) && wrongLetters == old(wrongLetters) && maxIncorrect == old(maxIncorrect)
          invariant |correctLetters| == |secret|
          invariant forall i :: 0 <= i < idx ==> correctLetters[i] == Reveal(secret, old(correctLetters), l)[i]
          invariant forall i :: idx <= i < |secret| ==> correctLetters[i] == old(correctLetters)[i]
        {
          if secret[idx] == l {
            correctLetters := correctLetters[idx := l];
          }
        }
        return Correct;
      } else {
        MissKeepsConsistent(secret, correctLetters, wrongLetters, l);
        wrongLetters := wrongLetters + [l];
        return Wrong;
      }
    }
  }

  /** The second spelling of the same game. */
  class GameState {
    var target: string
    var revealed: seq<char>
    var badGuesses: seq<char>
    var maxMistakes: int

    ghost predicate Valid()
      reads this
    {
      Consistent(target, revealed, badGuesses)
    }

    /** initialize: lower-cases the word and hides every letter. */
    constructor (word: string, maxMistakes: int)
      ensures Valid()
      ensures target == DowncaseAll(word)
      ensures revealed == seq(|word|, i => HIDDEN) && badGuesses == []
      ensures this.maxMistakes == maxMistakes
    {
      target := DowncaseAll(word);
      revealed := seq(|word|, i => HIDDEN);
      badGuesses := [];
      this.maxMistakes := maxMistakes;
    }

    /** left_attempts. */
    function LeftAttempts(): (r: int)
      reads this
      ensures r + |badGuesses| == maxMistakes
    {
      maxMistakes - |badGuesses|
    }

    /** won?: no '_' left, which in a consistent game means the word is shown. */
    function Won(): (r: bool)
      reads this
      ensures Valid() && HIDDEN !in target ==> (r <==> revealed == target)
    {
      assert Valid() && HIDDEN !in target ==> (HIDDEN !in revealed <==> revealed == target) by {
        if Valid() && HIDDEN !in target {
          WonMeansSolved(target, revealed, badGuesses);
        }
      }
      HIDDEN !in revealed
    }

    /** lost?: no attempts left. */
    function Lost(): (r: bool)
      reads this
      ensures r <==> |badGuesses| >= maxMistakes
    {
      LeftAttempts() <= 0
    }

    /** submit: the rules of guess_letter, answering Correct for :hit and
        Wrong for :miss. */
    method Submit(ch: char) returns (r: Outcome)
      requires Valid()
      modifies this
      ensures Valid()
      ensures target == old(target) && maxMistakes == old(maxMistakes)
      ensures r == Already <==> Guessed(old(revealed), old(badGuesses), Downcase(ch))
      ensures r == Correct <==> !Guessed(old(revealed), old(badGuesses), Downcase(ch)) && Downcase(ch) in target
      ensures r == Already ==> revealed == old(revealed) && badGuesses == old(badGuesses)
      ensures r == Correct ==> revealed == Reveal(target, old(revealed), Downcase(ch)) && badGuesses == old(badGuesses)
      ensures r == Wrong ==> revealed == old(revealed) && badGuesses == old(badGuesses) + [Downcase(ch)]
    {
      var c := Downcase(ch);
      if Guessed(revealed, badGuesses, c) {
        return Already;
      }
      if c in target {
        RevealProgress(target, revealed, badGuesses, c);
        for i := 0 to |target|
          invariant target == old(target) && badGuesses == old(badGuesses) && maxMistakes == old(maxMistakes)
          invariant |revealed| == |target|
          invariant forall k :: 0 <= k < i ==> revealed[k] == Reveal(target, old(revealed), c)[k]
          invariant forall k :: i <= k < |target| ==> revealed[k] == old(revealed)[k]
        {
          if target[i] == c {
            revealed := revealed[i := c];
          }
        }
        return Correct;
      } else {
        MissKeepsConsistent(target, revealed, badGuesses, c);
        badGuesses := badGuesses + [c];
        return Wrong;
      }
    }
  }
}
