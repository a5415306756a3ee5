/** The computer codecracker of MasterMind/lib/codecracker.rb. It starts with
    one colour four times, reads the key pegs of each scored row back from the
    board, keeps the colours known to be in the code, and once all four are
    known tries arrangements of them that it has not tried before. Every
    random `shuffle`/`sample` of the source is a parameter here. */
module Codecrackers {
  import opened Colors
  import opened Words
  import opened Codemakers
  import opened Boards

  /** What `list.shuffle.sample.to_s` can yield: an element of the list, or
      "" (nil) when the list is empty. */
  predicate Sampled(color: string, from: seq<string>)
  {
    if from == [] then color == "" else color in from
  }

  /** `Array#delete`: every occurrence of x removed, the rest kept in order. */
  function Without(s: seq<string>, x: string): seq<string>
  {
    if s == [] then [] else (if s[0] == x then [] else [s[0]]) + Without(s[1..], x)
  }

  /** delete removes exactly the copies of x: every other colour keeps its
      number of occurrences, and the list does not grow. */
  lemma {:induction false} WithoutCounts(s: seq<string>, x: string)
    ensures multiset(Without(s, x)) == multiset(s)[x := 0]
    ensures x !in Without(s, x) && |Without(s, x)| <= |s|
    decreases |s|
  {
    if s != [] {
      WithoutCounts(s[1..], x);
      assert s == [s[0]] + s[1..];
    }
  }

  /** `list[list.length - 1]`: the last element, "" (nil) for an empty list. */
  function LastOf(s: seq<string>): string
  {
    if s == [] then "" else s[|s| - 1]
  }

  /** The key pegs count_key_pegs reads off a row of slots: a slot starting
      with the red escape code is red, else one starting with the reset code
      is white, anything else (a blank) is skipped. */
  function Tally(slots: seq<string>): (t: KeyPegs)
    ensures t.red + t.white <= |slots|
  {
    if slots == [] then KeyPegs(0, 0)
    else
      var t := Tally(slots[..|slots| - 1]);
      var s := slots[|slots| - 1];
      if StartsWith(s, RED_CODE) then t.(red := t.red + 1)
      else if StartsWith(s, RESET) then t.(white := t.white + 1)
      else t
  }

  /** The array the swap loop of generate_possible_codes works on: the words,
      extended with nils (here "") up to length n when it assigns past the end. */
  function Padded(ws: seq<string>, n: int): (p: seq<string>)
    ensures |p| == if n > |ws| then n else |ws|
    ensures p[..|ws|] == ws
  {
    ws + Repeat("", n - |ws|)
  }

  /** The words with positions i and j exchanged. */
  function Swapped(ws: seq<string>, i: nat, j: nat): seq<string>
    requires i < j
  {
    var p := Padded(ws, j + 1);
    p[i := p[j]][j := p[i]]
  }

  /** The swaps (i, j) for j = i+1 .. 3, in order. */
  function SwapRow(ws: seq<string>, i: nat): seq<seq<string>>
    requires i <= 3
  {
    seq(3 - i, k requires 0 <= k < 3 - i => Swapped(ws, i, i + 1 + k))
  }

  /** The swaps of the rows 0 .. i-1. */
  function SwapRows(ws: seq<string>, i: nat): seq<seq<string>>
    requires i <= 3
  {
    if i == 0 then [] else SwapRows(ws, i - 1) + SwapRow(ws, i - 1)
  }

  /** Every swap of a pair i < j of the four positions. */
  function AllSwaps(ws: seq<string>): seq<seq<string>>
  {
    SwapRows(ws, 3)
  }

  /** The position of the first candidate whose joined text is not among
      `used`; |cands| when there is none. */
  function FirstFresh(cands: seq<seq<string>>, used: seq<string>): (k: nat)
    ensures k <= |cands|
    ensures forall i :: 0 <= i < k ==> Join(cands[i]) in used
    ensures k < |cands| ==> Join(cands[k]) !in used
  {
    if cands == [] then 0
    else if Join(cands[0]) !in used then 0
    else 1 + FirstFresh(cands[1..], used)
  }

  /** Every colour on offer is a colour of the game not used yet. */
  predicate Unused(offer: seq<string>, used: seq<string>)
  {
    forall c :: c in offer ==> c in POSSIBLE_COLORS && c !in used
  }

  /** Moving a sampled colour from the offer to the used colours keeps the
      offer unused, and a colour so moved was not used before. */
  lemma MoveKeepsUnused(offer: seq<string>, used: seq<string>, color: string)
    requires Unused(offer, used) && Sampled(color, offer)
    ensures Unused(Without(offer, color), used + [color])
    ensures color != "" ==> color !in used && color in POSSIBLE_COLORS
  {
    WithoutCounts(offer, color);
    forall c | c in Without(offer, color)
      ensures c in offer
    {
      assert multiset(Without(offer, color))[c] > 0;
    }
  }

  /** The `each` loop of generate_guess: every word followed by a space. */
  method SpaceEach(ws: seq<string>) returns (r: string)
    ensures r == Spaced(ws)
  {
    r := "";
    for i := 0 to |ws|
      invariant r == Spaced(ws[..i])
    {
      assert ws[..i + 1] == ws[..i] + [ws[i]];
      SpacedSnoc(ws[..i], ws[i]);
      r := r + ws[i] + " ";
    }
    assert ws[..|ws|] == ws;
  }

  /** The `times` loop of add_new_color_to_guess: `s` followed by `times`
      copies of "color ". */
  method AppendCopies(s: string, color: string, times: int) returns (r: string)
    ensures r == s + Spaced(Repeat(color, times))
  {
    r := s;
    ghost var added: seq<string> := [];
    for k := 0 to if times > 0 then times else 0
      invariant added == Repeat(color, k)
      invariant r == s + Spaced(added)
    {
      SpacedSnoc(added, color);
      AppendAssoc(s, Spaced(added), color);
      r := r + color + " ";
      added := added + [color];
    }
  }

  lemma AppendAssoc(s: string, t: string, w: string)
    ensures s + t + w + " " == s + (t + w + " ")
  {
  }

  class Codecracker {
    var guess: string
    var pegsForComputer: KeyPegs
    var colorsForComputer: seq<string>
    var usedColors: seq<string>
    var presentColors: seq<string>
    var pegsRegistered: int
    var usedAnswers: seq<string>
    var possibleCodes: seq<seq<string>>

    /** One present colour per registered peg; the colours still on offer
        are colours of the game that have not been used yet. */
    ghost predicate Valid()
      reads this`pegsRegistered, this`presentColors, this`colorsForComputer, this`usedColors
    {
      && 0 <= pegsRegistered == |presentColors|
      && Unused(colorsForComputer, usedColors)
    }

    /** initialize: an empty guess, no pegs, all six colours on offer. */
    constructor ()
      ensures Valid()
      ensures guess == "" && pegsForComputer == KeyPegs(0, 0)
      ensures colorsForComputer == POSSIBLE_COLORS
      ensures usedColors == [] && presentColors == [] && pegsRegistered == 0
      ensures usedAnswers == [] && possibleCodes == []
    {
      guess := "";
      pegsForComputer := KeyPegs(0, 0);
      colorsForComputer := ["red", "blue", "green", "yellow", "cyan", "purple"];
      usedColors := [];
      presentColors := [];
      pegsRegistered := 0;
      usedAnswers := [];
      possibleCodes := [];
    }

    /** generate_first_guess: the sampled colour four times; the colour
        moves from the offer to the used colours, and was not used before. */
    method GenerateFirstGuess(color: string)
      requires Valid() && Sampled(color, colorsForComputer)
      modifies this`guess, this`usedColors, this`colorsForComputer
      ensures Valid()
      ensures guess == Join(Repeat(color, 4))
      ensures usedColors == old(usedColors) + [color]
      ensures colorsForComputer == Without(old(colorsForComputer), color)
      ensures color != "" ==> color !in old(usedColors) && color in POSSIBLE_COLORS
    {
      MoveKeepsUnused(colorsForComputer, usedColors, color);
      usedColors := usedColors + [color];
      colorsForComputer := Without(colorsForComputer, color);
      guess := color + " " + color + " " + color + " " + color;
      JoinFour(color);
    }

    /** count_key_pegs: adds the red and white pegs found in the slots of
        row `row + 1` of the board to the counters. */
    method CountKeyPegs(cells: array2<Cell>, row: int)
      requires 0 <= row + 1 < cells.Length0 && PEG_COLUMN < cells.Length1
      requires cells[row + 1, PEG_COLUMN].Slots?
      modifies this`pegsForComputer
      ensures pegsForComputer.red == old(pegsForComputer.red) + Tally(cells[row + 1, PEG_COLUMN].slots).red
      ensures pegsForComputer.white == old(pegsForComputer.white) + Tally(cells[row + 1, PEG_COLUMN].slots).white
    {
      var slots := cells[row + 1, PEG_COLUMN].slots;
      for k := 0 to |slots|
        invariant pegsForComputer.red == old(pegsForComputer.red) + Tally(slots[..k]).red
        invariant pegsForComputer.white == old(pegsForComputer.white) + Tally(slots[..k]).white
      {
        assert slots[..k + 1][..k] == slots[..k];
        if StartsWith(slots[k], RED_CODE) {
          pegsForComputer := pegsForComputer.(red := pegsForComputer.red + 1);
        } else if StartsWith(slots[k], RESET) {
          pegsForComputer := pegsForComputer.(white := pegsForComputer.white + 1);
        }
      }
      assert slots[..|slots|] == slots;
    }

    /** append_correct_colors: one copy of the last used colour per peg not
        yet registered; the registered count rises to the pegs counted and
        never falls. */
    method AppendCorrectColors()
      requires Valid()
      modifies this`presentColors, this`pegsRegistered
      ensures Valid()
      ensures presentColors == old(presentColors) +
                Repeat(LastOf(usedColors), pegsForComputer.red + pegsForComputer.white - old(pegsRegistered))
      ensures pegsRegistered == if pegsForComputer.red + pegsForComputer.white > old(pegsRegistered)
                                then pegsForComputer.red + pegsForComputer.white else old(pegsRegistered)
      ensures pegsRegistered >= old(pegsRegistered)
    {
      var total := pegsForComputer.red + pegsForComputer.white;
      var times := total - pegsRegistered;
      var last := if |usedColors| > 0 then usedColors[|usedColors| - 1] else "";
      var present := presentColors;
      for k := 0 to if times > 0 then times else 0
        invariant present == old(presentColors) + Repeat(last, k)
      {
        present := present + [last];
      }
      presentColors := present;
      if total > pegsRegistered {
        pegsRegistered := total;
      }
    }

    /** add_new_color_to_guess: `4 - pegsRegistered` copies of the sampled
        colour, each followed by a space, after the guess built so far. */
    method AddNewColorToGuess(color: string)
      requires Valid() && Sampled(color, colorsForComputer)
      modifies this`guess, this`usedColors, this`colorsForComputer
      ensures Valid()
      ensures guess == old(guess) + Spaced(Repeat(color, 4 - pegsRegistered))
      ensures usedColors == old(usedColors) + [color]
      ensures colorsForComputer == Without(old(colorsForComputer), color)
    {
      guess := AppendCopies(guess, color, 4 - pegsRegistered);
      MoveKeepsUnused(colorsForComputer, usedColors, color);
      usedColors := usedColors + [color];
      colorsForComputer := Without(colorsForComputer, color);
    }

    /** generate_guess: the present colours followed by copies of one new
        colour, space-joined with the trailing blank stripped; both peg
        counters return to 0. */
    method GenerateGuess(color: string)
      requires Valid() && Sampled(color, colorsForComputer)
      modifies this`guess, this`usedColors, this`colorsForComputer, this`pegsForComputer
      ensures Valid()
      ensures guess == RStrip(Spaced(presentColors) + Spaced(Repeat(color, 4 - pegsRegistered)))
      ensures pegsForComputer == KeyPegs(0, 0)
      ensures usedColors == old(usedColors) + [color]
      ensures colorsForComputer == Without(old(colorsForComputer), color)
    {
      ghost var present, times := presentColors, 4 - pegsRegistered;
      guess := SpaceEach(presentColors);
      assert usedColors == old(usedColors) && colorsForComputer == old(colorsForComputer);
      AddNewColorToGuess(color);
      assert presentColors == present && 4 - pegsRegistered == times;
      pegsForComputer := KeyPegs(0, 0);
      guess := RStrip(guess);
    }

    /** generate_possible_codes: for each pair i < j of the four positions,
        in order, the words of the guess with positions i and j swapped. */
    method GeneratePossibleCodes()
      modifies this`possibleCodes
      ensures possibleCodes == old(possibleCodes) + AllSwaps(Split(guess))
    {
      var codes := possibleCodes;
      ghost var ws := Split(guess);
      for i := 0 to 3
        invariant codes == old(possibleCodes) + SwapRows(ws, i)
      {
        ghost var done := codes;
        for j := i + 1 to 4
          invariant codes == done + SwapRow(ws, i)[..j - i - 1]
        {
          var words := Padded(Split(guess), j + 1);
          var aux := words[i];
          words := words[i := words[j]];
          words := words[j := aux];
          assert words == Swapped(ws, i, j);
          SwapRowPrefix(ws, i, j);
          codes := codes + [words];
        }
        assert SwapRow(ws, i)[..3 - i] == SwapRow(ws, i);
      }
      possibleCodes := codes;
    }

    /** shuffle_guess: the first candidate, from the pending arrangements and
        then from the shuffles of the present colours, whose text was not
        answered before; it becomes the guess and is recorded, and the peg
        counters return to 0. `draws` are the successive shuffles; false when
        they run out before a new guess appears. */
    method ShuffleGuess(draws: seq<seq<string>>) returns (ok: bool)
      requires Valid()
      requires forall k :: 0 <= k < |draws| ==> multiset(draws[k]) == multiset(presentColors)
      modifies this`guess, this`usedAnswers, this`possibleCodes, this`pegsForComputer
      ensures Valid()
      ensures Picked(PendingCodes(old(pegsForComputer), old(possibleCodes), old(guess)), draws,
                     AnsweredBefore(old(usedAnswers), old(guess)), old(guess), guess, possibleCodes, ok)
      ensures usedAnswers == AnsweredBefore(old(usedAnswers), old(guess)) + (if ok then [guess] else [])
      ensures pegsForComputer == if ok then KeyPegs(0, 0) else old(pegsForComputer)
    {
      RecordAndGenerate();
      var g, rest, found := PickFresh(possibleCodes, draws, usedAnswers, guess);
      guess := g;
      possibleCodes := rest;
      if found {
        pegsForComputer := KeyPegs(0, 0);
        usedAnswers := usedAnswers + [g];
      }
      ok := found;
    }

    /** The first two lines of shuffle_guess: the current guess is recorded
        when nothing was answered yet, and the swaps are generated when two
        pegs are red and none is pending. */
    method RecordAndGenerate()
      modifies this`usedAnswers, this`possibleCodes
      ensures usedAnswers == AnsweredBefore(old(usedAnswers), guess)
      ensures possibleCodes == PendingCodes(pegsForComputer, old(possibleCodes), guess)
    {
      if usedAnswers == [] {
        usedAnswers := usedAnswers + [guess];
      }
      if pegsForComputer.red == 2 && possibleCodes == [] {
        GeneratePossibleCodes();
        assert [] + AllSwaps(Split(guess)) == AllSwaps(Split(guess));
      }
    }
  }

  /** The answers shuffle_guess checks against: the current guess is
      recorded first when nothing was answered yet. */
  function AnsweredBefore(used: seq<string>, guess: string): (r: seq<string>)
    ensures |r| > 0 && (used != [] ==> r == used)
  {
    if used == [] then [guess] else used
  }

  /** The arrangements shuffle_guess draws from before shuffling: the six
      swaps of the guess, generated when two pegs are red and none is pending. */
  function PendingCodes(pegs: KeyPegs, codes: seq<seq<string>>, guess: string): (r: seq<seq<string>>)
    ensures codes != [] ==> r == codes
  {
    if pegs.red == 2 && codes == [] then AllSwaps(Split(guess)) else codes
  }

  /** What the loop of shuffle_guess leaves: with k the first candidate not
      answered before, the guess is that candidate's text and the pending
      arrangements are those after it; when there is none, every candidate
      was tried, the last one is the guess and nothing is pending. */
  ghost predicate Picked(pending: seq<seq<string>>, draws: seq<seq<string>>, used: seq<string>,
                         start: string, g: string, rest: seq<seq<string>>, found: bool)
  {
    var cands := pending + draws;
    var k := FirstFresh(cands, used);
    && (found <==> k < |cands|)
    && (found ==> g == Join(cands[k]) && g !in used && rest == (if k < |pending| then pending[k + 1..] else []))
    && (!found ==> rest == [] && g == (if cands == [] then start else Join(cands[|cands| - 1])))
  }

  /** The loop of shuffle_guess: takes the pending arrangements one by one,
      then the shuffles, until one's text is not among `used`. */
  method PickFresh(pending: seq<seq<string>>, draws: seq<seq<string>>, used: seq<string>, start: string)
    returns (g: string, rest: seq<seq<string>>, found: bool)
    ensures Picked(pending, draws, used, start, g, rest, found)
  {
    ghost var cands := pending + draws;
    rest := pending;
    g := start;
    var d := 0;
    ghost var n := 0;
    found := false;
    while !found && (rest != [] || d < |draws|)
      invariant 0 <= n <= |cands|
      invariant n <= |pending| ==> rest == pending[n..] && d == 0
      invariant n >= |pending| ==> rest == [] && d == n - |pending|
      invariant n == 0 ==> g == start
      invariant n > 0 ==> g == Join(cands[n - 1])
      invariant found ==> n > 0 && g !in used
      invariant forall i :: 0 <= i < n && (i < n - 1 || !found) ==> Join(cands[i]) in used
      decreases |cands| - n
    {
      var c;
      if rest != [] {
        c := rest[0];
        rest := rest[1..];
      } else {
        c := draws[d];
        d := d + 1;
      }
      assert c == cands[n];
      g := Join(c);
      n := n + 1;
      found := g !in used;
    }
    if found {
      assert FirstFresh(cands, used) == n - 1;
    } else {
      assert n == |cands|;
    }
  }

  /** The interpolated first guess is the colour joined four times. */
  lemma JoinFour(color: string)
    ensures Join(Repeat(color, 4)) == color + " " + color + " " + color + " " + color
  {
    var four := [color, color, color, color];
    assert Repeat(color, 4) == four;
    assert four[1..][1..][1..] == [color];
    assert Join(four[1..][1..]) == color + " " + color;
  }

  lemma SwapRowPrefix(ws: seq<string>, i: nat, j: nat)
    requires i < j <= 3
    ensures SwapRow(ws, i)[..j - i] == SwapRow(ws, i)[..j - i - 1] + [Swapped(ws, i, j)]
  {
    assert SwapRow(ws, i)[j - i - 1] == Swapped(ws, i, j);
  }

  /** The first guess, split the way the driver hands it to the codemaker,
      is the colour four times. */
  lemma FirstGuessWords(color: string)
    requires IsWord(color)
    ensures Split(Join(Repeat(color, 4))) == [color, color, color, color]
  {
    assert Repeat(color, 4) == [color, color, color, color];
    SplitJoin([color, color, color, color]);
  }

  /** A guess from generate_guess is four words: the present colours, then
      the new colour. */
  lemma GeneratedGuessWords(present: seq<string>, color: string)
    requires AllWords(present) && IsWord(color) && |present| <= 4
    ensures var ws := present + Repeat(color, 4 - |present|);
            && |ws| == 4
            && Split(RStrip(Spaced(present) + Spaced(Repeat(color, 4 - |present|)))) == ws
  {
    var ws := present + Repeat(color, 4 - |present|);
    assert AllWords(ws);
    SpacedAppend(present, Repeat(color, 4 - |present|));
    RStripSpaced(ws);
    SplitJoin(ws);
  }

  /** Reading a row written by insert_key_pegs recovers the pegs inserted:
      the board and the codecracker agree on the peg encoding. */
  lemma {:induction false} TallyPegRow(pegs: KeyPegs)
    requires pegs.red + pegs.white <= SLOTS
    ensures Tally(PegRow(pegs)) == pegs
  {
    var row := PegRow(pegs);
    TallyPrefix(pegs, SLOTS);
    assert row[..SLOTS] == row;
  }

  lemma {:induction false} TallyPrefix(pegs: KeyPegs, k: nat)
    requires pegs.red + pegs.white <= SLOTS && k <= SLOTS
    ensures var t := Tally(PegRow(pegs)[..k]);
            && t.red == (if k < pegs.red then k else pegs.red)
            && t.white == (if k <= pegs.red then 0 else if k < pegs.red + pegs.white then k - pegs.red else pegs.white)
  {
    if k > 0 {
      var row := PegRow(pegs);
      TallyPrefix(pegs, k - 1);
      assert row[..k][..k - 1] == row[..k - 1];
      assert StartsWith(RED_PEG, RED_CODE);
      assert StartsWith(WHITE_PEG, RESET) && !StartsWith(WHITE_PEG, RED_CODE) by {
        assert WHITE_PEG[..|RED_CODE|][2] == '0' != RED_CODE[2];
      }
      assert !StartsWith(EMPTY_SLOT, RED_CODE) && !StartsWith(EMPTY_SLOT, RESET);
    }
  }

  /** The arrangements of generate_possible_codes, written out. */
  lemma AllSwapsListed(ws: seq<string>)
    ensures AllSwaps(ws) == [Swapped(ws, 0, 1), Swapped(ws, 0, 2), Swapped(ws, 0, 3),
                             Swapped(ws, 1, 2), Swapped(ws, 1, 3), Swapped(ws, 2, 3)]
  {
    assert SwapRows(ws, 1) == [Swapped(ws, 0, 1), Swapped(ws, 0, 2), Swapped(ws, 0, 3)];
    assert SwapRows(ws, 2) == SwapRows(ws, 1) + [Swapped(ws, 1, 2), Swapped(ws, 1, 3)];
  }

  /** On a guess of four words each arrangement is the guess with exactly
      two positions exchanged: the same colours, rearranged. */
  lemma SwapIsPermutation(ws: seq<string>, i: nat, j: nat)
    requires i < j < |ws|
    ensures var s := Swapped(ws, i, j);
            && |s| == |ws| && multiset(s) == multiset(ws)
            && s[i] == ws[j] && s[j] == ws[i]
            && forall k :: 0 <= k < |ws| && k != i && k != j ==> s[k] == ws[k]
  {
    var p := Padded(ws, j + 1);
    assert p == ws;
    var s := Swapped(ws, i, j);
    assert s == ws[i := ws[j]][j := ws[i]];
  }
}
