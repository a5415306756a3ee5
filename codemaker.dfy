/** Key-peg scoring of MasterMind/lib/codemaker.rb. A guess scores a red peg
    for every position where it has the code's colour, and then a white peg
    for every further colour it shares with the code, each code slot used at
    most once. */
module Codemakers {

  datatype Option<T> = None | Some(value: T)

  /** The hash `{ red: .., white: .. }`, red listed first. */
  datatype KeyPegs = KeyPegs(red: nat, white: nat)

  /** Position i holds the same colour in guess and code. */
  predicate Hit(guess: seq<string>, code: seq<string>, i: int)
  {
    0 <= i < |guess| && i < |code| && guess[i] == code[i]
  }

  /** The number of hits among the first k positions. */
  function HitCount(guess: seq<string>, code: seq<string>, k: nat): (n: nat)
    ensures n <= k
  {
    if k == 0 then 0 else HitCount(guess, code, k - 1) + (if Hit(guess, code, k - 1) then 1 else 0)
  }

  /** The guess after the first pass: hit positions hold ''. */
  function Blanked(guess: seq<string>, code: seq<string>): (b: seq<string>)
    ensures |b| == |guess|
  {
    seq(|guess|, i requires 0 <= i < |guess| => if Hit(guess, code, i) then "" else guess[i])
  }

  /** `code_copy` once the hits among the first k positions are set to nil. */
  function CopyAfterHits(guess: seq<string>, code: seq<string>, k: int): (cc: seq<Option<string>>)
    ensures |cc| == |code|
  {
    seq(|code|, i requires 0 <= i < |code| => if i < k && Hit(guess, code, i) then None else Some(code[i]))
  }

  /** The colours still present in a copy of the code. */
  function Present(cc: seq<Option<string>>): multiset<string>
  {
    if cc == [] then multiset{}
    else Present(cc[..|cc| - 1]) + (if cc[|cc| - 1].Some? then multiset{cc[|cc| - 1].value} else multiset{})
  }

  /** The code colours left for white pegs. */
  function Unmatched(guess: seq<string>, code: seq<string>): multiset<string>
  {
    Present(CopyAfterHits(guess, code, |guess|))
  }

  /** The second pass: each guess colour still present in the code scores a
      white peg and uses up one slot of that colour. */
  function Greedy(g: seq<string>, m: multiset<string>): nat
  {
    if g == [] then 0
    else if g[0] in m then 1 + Greedy(g[1..], m - multiset{g[0]})
    else Greedy(g[1..], m)
  }

  /** What check_guess returns. */
  function Score(guess: seq<string>, code: seq<string>): KeyPegs
  {
    KeyPegs(HitCount(guess, code, |guess|), Greedy(Blanked(guess, code), Unmatched(guess, code)))
  }

  /** The first index holding x: `code_copy.index(el)`. */
  function IndexOf(cc: seq<Option<string>>, x: Option<string>): (k: int)
    requires x in cc
    ensures 0 <= k < |cc| && cc[k] == x
    ensures forall i :: 0 <= i < k ==> cc[i] != x
  {
    if cc[0] == x then 0 else 1 + IndexOf(cc[1..], x)
  }

  class Codemaker {
    var code: seq<string>

    /** initialize: no code yet. */
    constructor ()
      ensures code == []
    {
      code := [];
    }

    /** set_code, with the code the computer draws or the player types given
        as the argument. */
    method SetCode(newCode: seq<string>)
      modifies this
      ensures code == newCode
    {
      code := newCode;
    }

    /** check_guess: two passes over the guess, which is updated in place
        (hits become ''), against a copy of the code; the code itself is
        left alone. */
    method CheckGuess(guess: array<string>) returns (pegs: KeyPegs)
      modifies guess
      ensures pegs == Score(old(guess[..]), code)
      ensures guess[..] == Blanked(old(guess[..]), code)
      ensures code == old(code)
    {
      ghost var g0 := guess[..];
      var c := code;
      var codeCopy: seq<Option<string>> := seq(|c|, i requires 0 <= i < |c| => Some(c[i]));
      assert codeCopy == CopyAfterHits(g0, code, 0);
      var red := 0;
      for idx := 0 to guess.Length
        invariant red == HitCount(g0, code, idx)
        invariant codeCopy == CopyAfterHits(g0, code, idx)
        invariant forall i :: 0 <= i < guess.Length ==> guess[i] == if i < idx && Hit(g0, code, i) then "" else g0[i]
      {
        CopyStep(g0, code, idx + 1);
        if idx < |codeCopy| && codeCopy[idx] == Some(guess[idx]) {
          red := red + 1;
          codeCopy := codeCopy[idx := None];
          guess[idx] := "";
        }
      }
      ghost var g1 := guess[..];
      assert g1 == Blanked(g0, code);
      var white := WhitePass(guess[..], codeCopy);
      pegs := KeyPegs(red, white);
    }
  }

  /** The second pass of check_guess: each guess colour still in the copy
      of the code scores a white peg and its first occurrence there becomes
      nil. */
  method WhitePass(guess: seq<string>, codeCopy: seq<Option<string>>) returns (white: nat)
    ensures white == Greedy(guess, Present(codeCopy))
  {
    var cc := codeCopy;
    white := 0;
    for idx := 0 to |guess|
      invariant white + Greedy(guess[idx..], Present(cc)) == Greedy(guess, Present(codeCopy))
    {
      var el := guess[idx];
      assert guess[idx..][1..] == guess[idx + 1..];
      PresentHas(cc, el);
      if Some(el) in cc {
        var k := IndexOf(cc, Some(el));
        PresentClear(cc, k);
        white := white + 1;
        cc := cc[k := None];
      }
    }
    assert guess[|guess|..] == [];
  }

  // -----------------------------------------------------------------------
  // Lemmas

  lemma {:induction false} PresentHas(cc: seq<Option<string>>, x: string)
    ensures x in Present(cc) <==> Some(x) in cc
    decreases |cc|
  {
    if cc != [] {
      var init := cc[..|cc| - 1];
      PresentHas(init, x);
      assert cc == init + [cc[|cc| - 1]];
    }
  }

  lemma {:induction false} PresentClear(cc: seq<Option<string>>, k: int)
    requires 0 <= k < |cc| && cc[k].Some?
    ensures cc[k].value in Present(cc)
    ensures Present(cc[k := None]) == Present(cc) - multiset{cc[k].value}
    decreases |cc|
  {
    var x := cc[k].value;
    var init, last := cc[..|cc| - 1], cc[|cc| - 1];
    assert cc == init + [last];
    PresentSnoc(init, last);
    if k == |cc| - 1 {
      assert cc[k := None] == init + [None];
      PresentSnoc(init, None);
      TakeBack(Present(init), x);
    } else {
      assert cc[k := None] == init[k := None] + [last];
      PresentSnoc(init[k := None], last);
      PresentClear(init, k);
      TakeInner(Present(init), if last.Some? then multiset{last.value} else multiset{}, x);
    }
  }

  lemma TakeBack(a: multiset<string>, x: string)
    ensures x in a + multiset{x} && a == (a + multiset{x}) - multiset{x}
  {
  }

  lemma TakeInner(a: multiset<string>, t: multiset<string>, x: string)
    requires x in a
    ensures x in a + t && (a - multiset{x}) + t == (a + t) - multiset{x}
  {
  }

  lemma {:induction false} PresentAll(code: seq<string>)
    ensures |Present(seq(|code|, i requires 0 <= i < |code| => Some(code[i])))| == |code|
    decreases |code|
  {
    if code != [] {
      var init := code[..|code| - 1];
      PresentAll(init);
      var cc := seq(|code|, i requires 0 <= i < |code| => Some(code[i]));
      assert cc[..|cc| - 1] == seq(|init|, i requires 0 <= i < |init| => Some(init[i]));
    }
  }

  /** One more position of the first pass: a hit sets its code slot to nil. */
  lemma CopyStep(guess: seq<string>, code: seq<string>, k: nat)
    requires k > 0
    ensures CopyAfterHits(guess, code, k) ==
            if Hit(guess, code, k - 1) then CopyAfterHits(guess, code, k - 1)[k - 1 := None]
            else CopyAfterHits(guess, code, k - 1)
  {
  }

  lemma CopyStart(guess: seq<string>, code: seq<string>)
    ensures |Present(CopyAfterHits(guess, code, 0))| == |code|
  {
    PresentAll(code);
    assert CopyAfterHits(guess, code, 0) == seq(|code|, i requires 0 <= i < |code| => Some(code[i]));
  }

  /** Every hit takes one colour out of the copy of the code, so the colours
      left are as many as the slots that were not hit. */
  lemma {:induction false} UnmatchedCount(guess: seq<string>, code: seq<string>, k: nat)
    requires k <= |guess|
    ensures |Present(CopyAfterHits(guess, code, k))| + HitCount(guess, code, k) == |code|
    decreases k
  {
    if k == 0 {
      CopyStart(guess, code);
    } else {
      UnmatchedCount(guess, code, k - 1);
      CopyStep(guess, code, k);
      if Hit(guess, code, k - 1) {
        PresentClear(CopyAfterHits(guess, code, k - 1), k - 1);
      }
    }
  }

  lemma {:induction false} GreedyBound(g: seq<string>, m: multiset<string>)
    ensures Greedy(g, m) <= |m|
    ensures Greedy(g, m) <= |g|
    decreases |g|
  {
    if g != [] {
      if g[0] in m {
        GreedyBound(g[1..], m - multiset{g[0]});
      } else {
        GreedyBound(g[1..], m);
      }
    }
  }

  /** The second pass counts the common colours of the blanked guess and the
      code's leftovers: the size of their multiset intersection. */
  lemma {:induction false} GreedyIsIntersection(g: seq<string>, m: multiset<string>)
    ensures Greedy(g, m) == |multiset(g) * m|
    decreases |g|
  {
    if g == [] {
      assert multiset(g) * m == multiset{};
    } else {
      var x, rest := g[0], g[1..];
      assert g == [x] + rest;
      assert multiset(g) == multiset{x} + multiset(rest);
      if x in m {
        GreedyIsIntersection(rest, m - multiset{x});
        assert multiset(g) * m == multiset{x} + multiset(rest) * (m - multiset{x});
      } else {
        GreedyIsIntersection(rest, m);
        assert multiset(g) * m == multiset(rest) * m;
      }
    }
  }

  /** At most one key peg per code slot: red + white <= the code's length. */
  lemma ScoreBound(guess: seq<string>, code: seq<string>)
    ensures Score(guess, code).red + Score(guess, code).white <= |code|
  {
    UnmatchedCount(guess, code, |guess|);
    GreedyBound(Blanked(guess, code), Unmatched(guess, code));
  }

  lemma {:induction false} AllHits(guess: seq<string>, code: seq<string>, k: nat)
    requires k <= |guess| && k <= |code|
    ensures HitCount(guess, code, k) == k <==> guess[..k] == code[..k]
    decreases k
  {
    if k > 0 {
      AllHits(guess, code, k - 1);
      if guess[..k] == code[..k] {
        assert guess[..k - 1] == guess[..k][..k - 1];
        assert code[..k - 1] == code[..k][..k - 1];
        assert guess[k - 1] == guess[..k][k - 1];
      }
      if HitCount(guess, code, k) == k {
        assert guess[..k] == guess[..k - 1] + [guess[k - 1]];
        assert code[..k] == code[..k - 1] + [code[k - 1]];
      }
    }
  }

  /** Four red pegs exactly when the guess is the code. */
  lemma AllRedIffEqual(guess: seq<string>, code: seq<string>)
    requires |guess| == |code|
    ensures Score(guess, code).red == |code| <==> guess == code
  {
    AllHits(guess, code, |code|);
    assert guess[..|code|] == guess && code[..|code|] == code;
  }

  lemma {:induction false} GreedyEmpty(g: seq<string>)
    ensures Greedy(g, multiset{}) == 0
    decreases |g|
  {
    if g != [] {
      GreedyEmpty(g[1..]);
    }
  }

  /** The code itself scores only red pegs. */
  lemma ExactGuessNoWhite(code: seq<string>)
    ensures Score(code, code) == KeyPegs(|code|, 0)
  {
    AllRedIffEqual(code, code);
    var cc := CopyAfterHits(code, code, |code|);
    forall x ensures x !in Present(cc) {
      PresentHas(cc, x);
    }
    assert Present(cc) == multiset{};
    GreedyEmpty(Blanked(code, code));
  }

  /** A slot blanked by the first pass never scores white: the code has no
      empty colour, so '' is never among its leftovers. */
  lemma BlankNeverWhite(guess: seq<string>, code: seq<string>)
    requires forall i :: 0 <= i < |code| ==> code[i] != ""
    ensures "" !in Unmatched(guess, code)
  {
    PresentHas(CopyAfterHits(guess, code, |guess|), "");
  }

  lemma PresentSnoc(cc: seq<Option<string>>, x: Option<string>)
    ensures Present(cc + [x]) == Present(cc) + (if x.Some? then multiset{x.value} else multiset{})
  {
    assert (cc + [x])[..|cc|] == cc;
  }

  lemma ExampleLeftovers(g: seq<string>, c: seq<string>)
    requires g == ["blue", "red", "green", "green"] && c == ["red", "blue", "green", "yellow"]
    ensures Unmatched(g, c) == multiset{"red", "blue", "yellow"}
  {
    var p0: seq<Option<string>> := [];
    var p1 := p0 + [Some("red")];
    var p2 := p1 + [Some("blue")];
    var p3 := p2 + [None];
    var p4 := p3 + [Some("yellow")];
    assert CopyAfterHits(g, c, 4) == p4;
    PresentSnoc(p0, Some("red"));
    PresentSnoc(p1, Some("blue"));
    PresentSnoc(p2, None);
    PresentSnoc(p3, Some("yellow"));
  }

  /** One red (green in place) and two whites (red and blue swapped). */
  lemma ScoreExample()
    ensures Score(["blue", "red", "green", "green"], ["red", "blue", "green", "yellow"]) == KeyPegs(1, 2)
  {
    var g, c := ["blue", "red", "green", "green"], ["red", "blue", "green", "yellow"];
    assert HitCount(g, c, 4) == 1 by {
      assert !Hit(g, c, 0) && !Hit(g, c, 1) && Hit(g, c, 2) && !Hit(g, c, 3);
    }
    ExampleLeftovers(g, c);
    var b := Blanked(g, c);
    assert b == ["blue", "red", "", "green"];
    GreedyIsIntersection(b, Unmatched(g, c));
    assert multiset(b) * Unmatched(g, c) == multiset{"blue", "red"};
  }
}
