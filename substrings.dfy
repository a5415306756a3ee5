/** Dictionary-substring counting from substrings/substrings.rb. Each word of
    the list that `pattern.match(word)` finds is counted as often as it
    occurs in the list. For words made only of letters, the regular
    expression match is a case-sensitive substring test. */
module Substrings {

  /** `word` occurs in `pattern` starting at index i. */
  predicate OccursAt(word: string, pattern: string, i: nat)
  {
    i + |word| <= |pattern| && pattern[i..i + |word|] == word
  }

  /** `word` occurs somewhere in `pattern` (character for character, so case-sensitive). */
  predicate Matches(word: string, pattern: string)
  {
    exists i: nat | i <= |pattern| :: OccursAt(word, pattern, i)
  }

  /** A word whose first letter stands at no possible start position of the pattern does not match. */
  lemma NoMatchByFirstChar(word: string, pattern: string)
    requires |word| > 0
    requires forall i :: 0 <= i <= |pattern| - |word| ==> pattern[i] != word[0]
    ensures !Matches(word, pattern)
  {
    forall i: nat | i <= |pattern| ensures !OccursAt(word, pattern, i) {
      if i + |word| <= |pattern| {
        assert pattern[i..i + |word|][0] == pattern[i];
      }
    }
  }

  /** How many times w is listed in s. */
  function Occurrences(s: seq<string>, w: string): nat
  {
    if s == [] then 0 else Occurrences(s[..|s| - 1], w) + (if s[|s| - 1] == w then 1 else 0)
  }

  lemma {:induction false} OccurrencesAbsent(s: seq<string>, w: string)
    requires w !in s
    ensures Occurrences(s, w) == 0
    decreases |s|
  {
    if s != [] {
      OccurrencesAbsent(s[..|s| - 1], w);
    }
  }

  lemma {:induction false} OccurrencesAppend(s: seq<string>, t: seq<string>, w: string)
    ensures Occurrences(s + t, w) == Occurrences(s, w) + Occurrences(t, w)
    decreases |t|
  {
    if t == [] {
      assert s + t == s;
    } else {
      assert (s + t)[..|s + t| - 1] == s + t[..|t| - 1];
      OccurrencesAppend(s, t[..|t| - 1], w);
    }
  }

  /** What the returned hash means: its keys are exactly the listed words that
      match, and each key maps to the number of times the word is listed. */
  ghost predicate CountsMatches(pattern: string, wordList: seq<string>, found: map<string, nat>)
  {
    && (forall w :: w in found <==> w in wordList && Matches(w, pattern))
    && (forall w :: w in found ==> found[w] == Occurrences(wordList, w))
  }

  /** substrings: one pass over the list, incrementing `found[word]` on a match. */
  method Substrings(pattern: string, wordList: seq<string>) returns (found: map<string, nat>)
    ensures CountsMatches(pattern, wordList, found)
    ensures forall w :: w in found ==> found[w] > 0
  {
    found := map[];
    for k := 0 to |wordList|
      invariant CountsMatches(pattern, wordList[..k], found)
      invariant forall w :: w in found ==> found[w] > 0
    {
      var word := wordList[k];
      assert wordList[..k + 1][..k] == wordList[..k];
      forall w ensures Occurrences(wordList[..k + 1], w) == Occurrences(wordList[..k], w) + (if word == w then 1 else 0) {
      }
      if Matches(word, pattern) {
        if word !in found {
          OccurrencesAbsent(wordList[..k], word);
        }
        found := found[word := if word in found then found[word] + 1 else 1];
      }
    }
    assert wordList[..|wordList|] == wordList;
  }

  const SampleList: seq<string> :=
    ["below", "down", "go", "going", "horn", "how", "howdy", "it", "i", "low", "own", "part", "partner", "sit"]

  lemma SampleMatches(w: string)
    requires w in SampleList
    ensures Matches(w, "below") <==> w == "below" || w == "low"
  {
    var k :| 0 <= k < |SampleList| && SampleList[k] == w;
    if k == 0 {
      assert OccursAt("below", "below", 0) by { assert "below"[0..5] == "below"; }
    } else if k == 9 {
      assert OccursAt("low", "below", 2) by { assert "below"[2..5] == "low"; }
    } else {
      NoMatchByFirstChar(w, "below");
    }
  }

  lemma SampleCountBelow()
    ensures Occurrences(SampleList, "below") == 1
  {
    var after := SampleList[1..];
    assert "below" !in after by {
      forall k | 0 <= k < |after| ensures after[k] != "below" {
        assert after[k][0] != 'b' || |after[k]| != 5;
      }
    }
    OccurrencesAbsent(after, "below");
    assert SampleList == ["below"] + after;
    OccurrencesAppend(["below"], after, "below");
    assert Occurrences(["below"], "below") == 1;
  }

  lemma SampleCountLow()
    ensures Occurrences(SampleList, "low") == 1
  {
    var before, after := SampleList[..9], SampleList[10..];
    assert "low" !in before by {
      forall k | 0 <= k < |before| ensures before[k] != "low" {
        assert before[k][0] != 'l' || |before[k]| != 3;
      }
    }
    assert "low" !in after by {
      forall k | 0 <= k < |after| ensures after[k] != "low" {
        assert after[k][0] != 'l';
      }
    }
    OccurrencesAbsent(before, "low");
    OccurrencesAbsent(after, "low");
    assert SampleList == before + ["low"] + after;
    OccurrencesAppend(before + ["low"], after, "low");
    OccurrencesAppend(before, ["low"], "low");
    assert Occurrences(["low"], "low") == 1;
  }

  /** The sample call at the foot of the file. */
  lemma SubstringsExample(found: map<string, nat>)
    requires CountsMatches("below", SampleList, found)
    ensures found == map["below" := 1, "low" := 1]
  {
    forall w | w in SampleList ensures Matches(w, "below") <==> w == "below" || w == "low" {
      SampleMatches(w);
    }
    assert "below" in SampleList && "low" in SampleList;
    assert found.Keys == {"below", "low"};
    SampleCountBelow();
    SampleCountLow();
  }

  /** Matching is case-sensitive: an upper-case word does not match a lower-case pattern. */
  lemma MatchIsCaseSensitive()
    ensures Matches("low", "below") && !Matches("Low", "below")
  {
    assert OccursAt("low", "below", 2) by { assert "below"[2..5] == "low"; }
    NoMatchByFirstChar("Low", "below");
  }
}
