/** The Ruby string operations MasterMind leans on: `split(' ')`, `join(' ')`
    and `rstrip`, for strings whose only blank is the space character. */
module Words {

  /** A word: non-empty and without a space. */
  predicate IsWord(w: string)
  {
    w != [] && ' ' !in w
  }

  predicate AllWords(ws: seq<string>)
  {
    forall i :: 0 <= i < |ws| ==> IsWord(ws[i])
  }

  /** The characters of s up to its first space. */
  function TakeWord(s: string): (w: string)
    ensures |w| <= |s| && w == s[..|w|]
    ensures ' ' !in w
    ensures |w| < |s| ==> s[|w|] == ' '
  {
    if s == [] || s[0] == ' ' then [] else [s[0]] + TakeWord(s[1..])
  }

  /** `split(' ')`: the maximal runs of non-space characters, in order;
      leading, trailing and repeated spaces produce no empty words. */
  function Split(s: string): (ws: seq<string>)
    ensures AllWords(ws)
    decreases |s|
  {
    if s == [] then []
    else if s[0] == ' ' then Split(s[1..])
    else
      var w := TakeWord(s);
      [w] + Split(s[|w|..])
  }

  /** `join(' ')`: the words with one space between neighbours. */
  function Join(ws: seq<string>): string
  {
    if ws == [] then ""
    else if |ws| == 1 then ws[0]
    else ws[0] + " " + Join(ws[1..])
  }

  /** `rstrip`: the string without its trailing spaces. */
  function RStrip(s: string): string
  {
    if s != [] && s[|s| - 1] == ' ' then RStrip(s[..|s| - 1]) else s
  }

  /** The words, each followed by a space: what `s += "#{w} "` builds up. */
  function Spaced(ws: seq<string>): string
  {
    if ws == [] then "" else Spaced(ws[..|ws| - 1]) + ws[|ws| - 1] + " "
  }

  lemma {:induction false} TakeWordWhole(w: string, rest: string)
    requires ' ' !in w
    requires rest == [] || rest[0] == ' '
    ensures TakeWord(w + rest) == w
    decreases |w|
  {
    if w == [] {
      assert w + rest == rest;
    } else {
      assert (w + rest)[1..] == w[1..] + rest;
      TakeWordWhole(w[1..], rest);
      assert w == [w[0]] + w[1..];
    }
  }

  /** split undoes join for a list of words. */
  lemma {:induction false} SplitJoin(ws: seq<string>)
    requires AllWords(ws)
    ensures Split(Join(ws)) == ws
    decreases |ws|
  {
    if ws == [] {
    } else if |ws| == 1 {
      var w := ws[0];
      TakeWordWhole(w, []);
      assert w + [] == w;
      assert w[|w|..] == [];
    } else {
      var w, j := ws[0], Join(ws[1..]);
      var s := w + " " + j;
      TakeWordWhole(w, " " + j);
      assert s == w + (" " + j);
      assert s[|w|..] == " " + j;
      assert (" " + j)[1..] == j;
      SplitJoin(ws[1..]);
      assert ws == [w] + ws[1..];
    }
  }

  lemma {:induction false} JoinSnoc(ws: seq<string>, w: string)
    requires ws != []
    ensures Join(ws + [w]) == Join(ws) + " " + w
    decreases |ws|
  {
    if |ws| == 1 {
      assert ws + [w] == [ws[0], w];
    } else {
      assert (ws + [w])[1..] == ws[1..] + [w];
      JoinSnoc(ws[1..], w);
    }
  }

  lemma {:induction false} SpacedIsJoin(ws: seq<string>)
    requires ws != []
    ensures Spaced(ws) == Join(ws) + " "
    decreases |ws|
  {
    if |ws| == 1 {
      assert Spaced(ws) == Spaced([]) + ws[0] + " ";
    } else {
      var init := ws[..|ws| - 1];
      SpacedIsJoin(init);
      JoinSnoc(init, ws[|ws| - 1]);
      assert init + [ws[|ws| - 1]] == ws;
    }
  }

  lemma {:induction false} JoinEndsInWord(ws: seq<string>)
    requires ws != [] && AllWords(ws)
    ensures Join(ws) != [] && Join(ws)[|Join(ws)| - 1] != ' '
    decreases |ws|
  {
    if |ws| > 1 {
      JoinEndsInWord(ws[1..]);
    }
  }

  lemma SpacedSnoc(ws: seq<string>, w: string)
    ensures Spaced(ws + [w]) == Spaced(ws) + w + " "
  {
    assert (ws + [w])[..|ws|] == ws;
  }

  /** Building the spaced string in two runs gives the spaced concatenation. */
  lemma {:induction false} SpacedAppend(a: seq<string>, b: seq<string>)
    ensures Spaced(a + b) == Spaced(a) + Spaced(b)
    decreases |b|
  {
    if b != [] {
      var init := b[..|b| - 1];
      assert (a + b)[..|a + b| - 1] == a + init;
      assert (a + b)[|a + b| - 1] == b[|b| - 1];
      SpacedAppend(a, init);
    } else {
      assert a + b == a;
    }
  }

  /** Appending "w " for each word and then stripping the trailing blank
      gives the space-joined words. */
  lemma RStripSpaced(ws: seq<string>)
    requires AllWords(ws)
    ensures RStrip(Spaced(ws)) == Join(ws)
  {
    if ws != [] {
      SpacedIsJoin(ws);
      JoinEndsInWord(ws);
      var j := Join(ws);
      assert (j + " ")[..|j|] == j;
    }
  }

  /** `n.times` repeated x: n copies, none for n <= 0. */
  function Repeat<T>(x: T, n: int): (r: seq<T>)
    ensures |r| == if n > 0 then n else 0
    ensures forall i :: 0 <= i < |r| ==> r[i] == x
    decreases n
  {
    if n <= 0 then [] else Repeat(x, n - 1) + [x]
  }

  /** `"a b c d".split(' ')` is the four colour words. */
  lemma SplitExample()
    ensures Split("red red blue cyan") == ["red", "red", "blue", "cyan"]
  {
    SplitJoin(["red", "red", "blue", "cyan"]);
    assert Join(["red", "red", "blue", "cyan"]) == "red red blue cyan";
  }
}
