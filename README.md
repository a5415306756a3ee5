# Ruby exercises, modelled and verified in Dafny

This project models a collection of small Ruby exercises and proves what
each one promises. Every exercise is its own module:

- `hash_map.dfy`: a chained hash map (`HashTables` for the table logic, `HashMaps` for the object).
- `hash_set.dfy`: the hash set built on that map.
- MasterMind, in several files:
  - `codemaker.dfy`: key-peg scoring;
  - `board.dfy`: the 12 x 5 board;
  - `codecracker.dfy`: the computer solver;
  - `colors.dfy` and `words.dfy`: the colour table and the string operations they share.
- `grid.dfy`: the tic-tac-toe grid.
- `hangman.dfy`: the Hangman guess logic, in both of its spellings.
- `merge_sort.dfy`, `bubble_sort.dfy` and `stock_picker.dfy`: the sorting and sequence algorithms.
- `cipher.dfy`, `substrings.dfy` and `fibonacci.dfy`: the string and sequence exercises.
- `enumerables.dfy`: the hand-written Enumerable combinators.

Code that updates objects in place is modelled by classes with `modifies`
clauses. Loops are modelled by methods with loop invariants. Each method is
proved against a specification function, and that function's properties are
proved as lemmas.

- The hash map's specification is a ghost `map` (`Contents`). Every operation
  is shown to behave like the corresponding update of that finite map.
- The sorts are shown to return sorted permutations of their input. Merge sort
  is also shown to be stable.
- MasterMind's scoring is characterised in several ways:
  - red pegs are the exact hits;
  - white pegs are the size of a multiset intersection;
  - red + white is at most the code length;
  - four reds means the guess is the code.
- The solver reads key pegs back from the board exactly as the board wrote them.

Randomness (`shuffle`, `sample`) is an input of the model: a sampled colour is
a parameter constrained by `Sampled`, and a stream of shuffles is a parameter
`draws`.

## Model

| member | source | states |
|---|---|---|
| HashTables.Hash | HashMap/lib/hash_map.rb:9-16 | the 31-multiplier fold of the key's bytes always lies in [0, 2^31) |
| HashTables.BucketOf | HashMap/lib/hash_map.rb:21 | `hash % capacity` is a valid bucket index for any positive capacity |
| HashTables.ComputeHash | HashMap/lib/hash_map.rb:9-16 | the shift-and-subtract byte loop with its 31-bit mask computes `Hash`, a value in [0, 2^31) |
| HashTables.HashExamples | HashMap/lib/hash_map.rb:9-16 | "a" hashes to 97 and "ab" to 3105 |
| HashTables.ScanBucket | HashMap/lib/hash_map.rb:24-29 | the bucket scan finds the first entry with the key, or runs off the end when there is none |
| HashTables.ScanAgreesWithMap | HashMap/lib/hash_map.rb:35-46 | in a well-formed table, the scan of the key's bucket finds the key iff the map holds it, and the entry carries the map's value |
| HashTables.OverwriteKeepsWellFormed | HashMap/lib/hash_map.rb:24-28 | overwriting an entry's value in place gives a well-formed table for the map updated at that key |
| HashTables.AppendKeepsWellFormed | HashMap/lib/hash_map.rb:31-32 | appending an entry for an absent key gives a well-formed table for the map extended by that pair |
| HashTables.DeleteFromBucket | HashMap/lib/hash_map.rb:51-54 | `delete_at` of the key's entry leaves a sound bucket that still holds every other key |
| HashTables.DeleteKeepsWellFormed | HashMap/lib/hash_map.rb:48-56 | deleting the key's entry gives a well-formed table for the map without the key |
| HashTables.EmptyTableWellFormed | HashMap/lib/hash_map.rb:4-7 | a table of empty buckets stands for the empty map |
| HashTables.FlattenSound | HashMap/lib/hash_map.rb:82-86 | every enumerated entry is a pair of the map and comes from a bucket already visited |
| HashTables.FlattenDistinct | HashMap/lib/hash_map.rb:71-75 | enumeration bucket by bucket never lists a key twice |
| HashTables.FlattenCovers | HashMap/lib/hash_map.rb:71-75 | every key whose bucket has been visited has been listed |
| HashTables.EntriesAreTheMap | HashMap/lib/hash_map.rb:82-86 | the enumeration lists every pair of the map exactly once, as many entries as the map has keys |
| HashTables.KeysAreTheMap | HashMap/lib/hash_map.rb:71-75 | the keys of the enumeration are exactly the map's keys, none twice, as many as `length` |
| HashTables.MapUpdateCard | HashMap/lib/hash_map.rb:31-32 | inserting a new key raises the size by one; overwriting leaves it unchanged |
| HashTables.MapRemoveCard | HashMap/lib/hash_map.rb:55 | removing a present key lowers the size by one |
| HashTables.RehashEntry | HashMap/lib/hash_map.rb:96 | re-inserting entry j of an old bucket moves a pair not yet moved, with its value |
| HashTables.RehashBucketDone | HashMap/lib/hash_map.rb:95-97 | after the last entry of an old bucket, every key of that bucket has moved |
| HashTables.RehashComplete | HashMap/lib/hash_map.rb:90-99 | after the last old bucket, the new table holds exactly the old map |
| HashTables.FlattenConcat | HashMap/lib/hash_map.rb:71-86 | enumerating two runs of buckets in a row lists the first run's entries and then the second's |
| HashTables.FlattenReplace | HashMap/lib/hash_map.rb:71-86 | changing one bucket changes the enumeration only within that bucket's run; the entries of all other buckets keep their place and order |
| HashTables.AppendedEnumeration | HashMap/lib/hash_map.rb:31 | a pair appended by `set` is enumerated after every entry of its own bucket and of the earlier buckets, that is, in insertion order within its bucket |
| HashMaps.HashMap.constructor | HashMap/lib/hash_map.rb:4-7 | 16 empty buckets, count 0, the empty map |
| HashMaps.HashMap.Insert | HashMap/lib/hash_map.rb:21-32 | the key now maps to the value and every other key is unchanged; the count grows by one exactly when the key is new; the capacity is unchanged; a present key's entry is overwritten at its place in its bucket and nil is returned; a new pair is appended at the end of its bucket, every other bucket unchanged, and the new count is returned |
| HashMaps.HashMap.GrowIfNeeded | HashMap/lib/hash_map.rb:90-99 | when count / capacity > 3/4 the capacity doubles, otherwise the bucket list is left as it is; the map and the count are preserved either way, and afterwards the load is at most 3/4 |
| HashMaps.HashMap.ReinsertBucket | HashMap/lib/hash_map.rb:95-97 | `set` for each entry of one old bucket moves exactly that bucket's pairs into the new table, and never triggers a nested grow |
| HashMaps.HashMap.Set | HashMap/lib/hash_map.rb:18-33 | after `set(k, v)`, k maps to v and all other keys are unchanged; `length` grows by one iff k was absent; it returns nil after an overwrite and the new count after an insertion; when no grow happens the bucket list is the old one with k's entry overwritten in place or (k, v) appended to k's bucket |
| HashMaps.HashMap.Get | HashMap/lib/hash_map.rb:35-41 | the stored value of a present key, and nil for an absent one |
| HashMaps.HashMap.Has | HashMap/lib/hash_map.rb:43-46 | true iff the key is in the map |
| HashMaps.HashMap.Remove | HashMap/lib/hash_map.rb:48-60 | returns the old value of a present key, which is then gone, and `length` drops by one; the bucket list is the old one with that entry deleted from its bucket and the bucket's other entries in their order; for an absent key it returns nil and changes nothing |
| HashMaps.HashMap.Length | HashMap/lib/hash_map.rb:62-64 | the count is the number of keys and the number of entries |
| HashMaps.HashMap.Clear | HashMap/lib/hash_map.rb:66-69 | like a new map: 16 empty buckets, count 0, no keys |
| HashMaps.HashMap.Keys | HashMap/lib/hash_map.rb:71-75 | `length` keys in enumeration order, exactly the map's keys, none twice |
| HashMaps.HashMap.Values | HashMap/lib/hash_map.rb:77-81 | `length` values in the same order as `keys`, so the i-th key maps to the i-th value |
| HashMaps.HashMap.EntryList | HashMap/lib/hash_map.rb:82-86 | the entries in enumeration order: `length` pairs, each a pair of the map |
| HashSets.AllTrueAdd | HashMap/lib/hash_set.rb:6-8 | storing `true` keeps every value true and adds the key to the elements |
| HashSets.HashSet.constructor | HashMap/lib/hash_set.rb:2-4 | a new set is empty |
| HashSets.HashSet.Add | HashMap/lib/hash_set.rb:6-8 | the key becomes an element; the length grows only when it was not one; the map's result is passed on: nil for an element already present, the new length otherwise |
| HashSets.HashSet.Remove | HashMap/lib/hash_set.rb:10-12 | true when the key was an element, nil otherwise; afterwards it is not an element |
| HashSets.HashSet.Has | HashMap/lib/hash_set.rb:14-16 | membership |
| HashSets.HashSet.Length | HashMap/lib/hash_set.rb:18-20 | the number of distinct elements |
| HashSets.HashSet.Clear | HashMap/lib/hash_set.rb:22-24 | no elements remain |
| HashSets.HashSet.Keys | HashMap/lib/hash_set.rb:26-28 | every element exactly once, no duplicates |
| Colors.ColorCode | MasterMind/lib/constants.rb:2-10 | an escape code exactly for the six colour names, nil for any other name |
| Colors.BoardColorCode | MasterMind/lib/board.rb:2-10 | agrees with the constants table on the six colours; non-empty exactly for those and white |
| Words.Split | MasterMind/lib/codecracker.rb:97 | `split(' ')` yields only non-empty words without spaces |
| Words.SplitJoin | MasterMind/lib/codecracker.rb:67 | splitting the space-join of words gives the words back |
| Words.RStripSpaced | MasterMind/lib/codecracker.rb:80-89 | appending "w " for each word and then `rstrip` gives the words joined by single spaces |
| Words.SpacedAppend | MasterMind/lib/codecracker.rb:77-90 | building the spaced string in two runs equals building it in one |
| Words.Repeat | MasterMind/lib/codecracker.rb:112-114 | `n.times` gives n copies, and none when n <= 0 |
| Words.SplitExample | MasterMind/lib/board.rb:35 | "red red blue cyan" splits into its four colour words |
| Codemakers.IndexOf | MasterMind/lib/codemaker.rb:26 | `index` is the first slot holding the value |
| Codemakers.Codemaker.constructor | MasterMind/lib/codemaker.rb:7-9 | no code yet |
| Codemakers.Codemaker.SetCode | MasterMind/lib/codemaker.rb:34-36 | the code becomes the drawn colours |
| Codemakers.Codemaker.CheckGuess | MasterMind/lib/codemaker.rb:11-30 | returns `Score`: red is the number of exact hits and white is counted over the leftovers; the guess is blanked ('') at every hit, in place; the code is unchanged |
| Codemakers.WhitePass | MasterMind/lib/codemaker.rb:23-28 | each guess colour still in the code copy scores one white and uses up one slot |
| Codemakers.PresentHas | MasterMind/lib/codemaker.rb:24 | a colour is among the leftovers iff some slot of the copy still holds it |
| Codemakers.PresentClear | MasterMind/lib/codemaker.rb:26 | setting one slot of the copy to nil removes exactly one copy of its colour |
| Codemakers.UnmatchedCount | MasterMind/lib/codemaker.rb:15-21 | every red peg uses up one code slot: the colours left plus the reds make the code length |
| Codemakers.GreedyBound | MasterMind/lib/codemaker.rb:23-28 | white is at most the number of leftover colours and at most the guess length |
| Codemakers.GreedyIsIntersection | MasterMind/lib/codemaker.rb:23-28 | white is the size of the multiset intersection of the blanked guess and the leftover code colours |
| Codemakers.ScoreBound | MasterMind/lib/codemaker.rb:15-28 | red + white is at most the code length |
| Codemakers.AllHits | MasterMind/lib/codemaker.rb:15-21 | every one of the first k positions is a hit iff the first k colours agree |
| Codemakers.AllRedIffEqual | MasterMind/lib/codemaker.rb:15-21 | red equals the code length exactly when the guess is the code |
| Codemakers.ExactGuessNoWhite | MasterMind/lib/codemaker.rb:11-30 | the code scored against itself gives only red pegs |
| Codemakers.BlankNeverWhite | MasterMind/lib/codemaker.rb:19-24 | a slot blanked to '' never scores white, because no code colour is '' |
| Codemakers.ExampleLeftovers | MasterMind/lib/codemaker.rb:13-21 | after the first pass, the copy of red-blue-green-yellow scored against blue-red-green-green keeps red, blue and yellow |
| Codemakers.ScoreExample | MasterMind/lib/codemaker.rb:11-30 | blue-red-green-green against red-blue-green-yellow scores one red and two whites |
| Boards.CrackedIffFourRed | MasterMind/lib/board.rb:40-48 | the row written by `insert_key_pegs` is all red exactly when four reds were inserted |
| Boards.Board.constructor | MasterMind/lib/board.rb:17-22 | 12 x 5 cells: holes in columns 0-3, four blank slots in column 4; `row_pointer` at row 11; not cracked |
| Boards.Board.InsertGuess | MasterMind/lib/board.rb:34-38 | hole c of the current row is wrapped in the colour code of the c-th word and the reset code; no other cell changes |
| Boards.Board.InsertKeyPegs | MasterMind/lib/board.rb:40-44 | the current row's slots hold the red pegs, then the white pegs, then blanks; no other cell changes; `row_pointer` moves up by exactly one |
| Boards.Board.CheckRedKeyPegs | MasterMind/lib/board.rb:46-48 | cracked iff every slot of the row just scored is a red peg |
| Codecrackers.WithoutCounts | MasterMind/lib/codecracker.rb:37 | `delete` removes every copy of the colour and keeps the count of every other colour |
| Codecrackers.Tally | MasterMind/lib/codecracker.rb:41-48 | never more pegs read than slots |
| Codecrackers.FirstFresh | MasterMind/lib/codecracker.rb:66-69 | the first candidate whose text was not answered before; all earlier ones were |
| Codecrackers.MoveKeepsUnused | MasterMind/lib/codecracker.rb:35-37 | moving the sampled colour to the used list keeps every offered colour a game colour not yet used; the sampled colour was unused |
| Codecrackers.SpaceEach | MasterMind/lib/codecracker.rb:80-82 | each present colour is followed by a space |
| Codecrackers.AppendCopies | MasterMind/lib/codecracker.rb:112-114 | the guess is followed by `times` copies of "color " |
| Codecrackers.Codecracker.constructor | MasterMind/lib/codecracker.rb:7-19 | empty guess, zero pegs, all six colours on offer, every list empty |
| Codecrackers.Codecracker.GenerateFirstGuess | MasterMind/lib/codecracker.rb:34-39 | the guess is one colour four times; that colour moves from the offer to the used colours, and it was not used before |
| Codecrackers.Codecracker.CountKeyPegs | MasterMind/lib/codecracker.rb:41-49 | the counters rise by the reds and whites read from the slots of row `row + 1` |
| Codecrackers.Codecracker.AppendCorrectColors | MasterMind/lib/codecracker.rb:51-59 | appends max(0, red + white - registered) copies of the last used colour; the registered count rises to red + white and never falls; one present colour per registered peg is kept |
| Codecrackers.Codecracker.AddNewColorToGuess | MasterMind/lib/codecracker.rb:108-118 | appends `4 - pegs_registered` copies of "color " and moves the colour from the offer to the used colours |
| Codecrackers.Codecracker.GenerateGuess | MasterMind/lib/codecracker.rb:77-90 | the guess is the present colours followed by copies of the new colour, space-joined with the trailing blank stripped; both peg counters return to 0 |
| Codecrackers.Codecracker.GeneratePossibleCodes | MasterMind/lib/codecracker.rb:94-106 | appends, in loop order, the guess words with each pair i < j swapped |
| Codecrackers.Codecracker.ShuffleGuess | MasterMind/lib/codecracker.rb:61-75 | the new guess is the first pending arrangement or shuffle whose text was not answered before; it is recorded in the answers and the counters reset |
| Codecrackers.Codecracker.RecordAndGenerate | MasterMind/lib/codecracker.rb:62-64 | the current guess is recorded when nothing was answered yet, and the swaps are generated when two pegs are red and none is pending |
| Codecrackers.AnsweredBefore | MasterMind/lib/codecracker.rb:62 | never empty once recorded; unchanged when something was already answered |
| Codecrackers.PendingCodes | MasterMind/lib/codecracker.rb:64 | pending arrangements are never regenerated |
| Codecrackers.PickFresh | MasterMind/lib/codecracker.rb:66-69 | the loop stops at the first candidate not answered before and leaves the candidates after it pending |
| Codecrackers.JoinFour | MasterMind/lib/codecracker.rb:38 | the interpolated first guess is the colour joined four times |
| Codecrackers.FirstGuessWords | MasterMind/lib/codecracker.rb:38 | the first guess splits into four copies of the colour |
| Codecrackers.GeneratedGuessWords | MasterMind/lib/codecracker.rb:77-90 | with at most four present colours, a generated guess splits into exactly four words: the present colours, then the new colour |
| Codecrackers.TallyPegRow | MasterMind/lib/codecracker.rb:41-48 | reading a row written by `insert_key_pegs` recovers exactly the red and white counts written |
| Codecrackers.AllSwapsListed | MasterMind/lib/codecracker.rb:95-96 | the arrangements are the six swaps (0,1), (0,2), (0,3), (1,2), (1,3), (2,3), in that order |
| Codecrackers.SwapIsPermutation | MasterMind/lib/codecracker.rb:99-101 | each arrangement is the guess with exactly positions i and j exchanged: same colours, rearranged |
| TicTacToe.EmptyGrid | TicTacToe/lib/grid.rb:43-45 | a 3 x 3 grid whose every cell is '-' |
| TicTacToe.AllLines | TicTacToe/lib/grid.rb:51-64 | 8 lines of 3 cells: the rows, the columns (transpose) and the two diagonals |
| TicTacToe.Uniq | TicTacToe/lib/grid.rb:67 | `uniq` keeps exactly the elements present, each once |
| TicTacToe.UniqSingleton | TicTacToe/lib/grid.rb:66-68 | one distinct mark iff the line is non-empty and all its marks are equal |
| TicTacToe.FirstWinner | TicTacToe/lib/grid.rb:20-25 | none iff no line wins; otherwise the mark of the first winning line |
| TicTacToe.Winner | TicTacToe/lib/grid.rb:20-25 | a reported winner is never the empty mark |
| TicTacToe.EmptyGridHasNoWinner | TicTacToe/lib/grid.rb:5-7 | a new grid has no winner |
| TicTacToe.WinnerOwnsALine | TicTacToe/lib/grid.rb:66-68 | the winner owns a full row, column or diagonal |
| TicTacToe.FullLineWins | TicTacToe/lib/grid.rb:20-25 | a line full of one non-empty mark means there is a winner |
| TicTacToe.RowsAreTriedFirst | TicTacToe/lib/grid.rb:16-25 | rows come before columns: a full top row wins over a full left column |
| TicTacToe.Grid.constructor | TicTacToe/lib/grid.rb:5-7 | a new grid is the empty grid |
| TicTacToe.Grid.CellEmpty | TicTacToe/lib/grid.rb:27-29 | true iff the cell is '-' |
| TicTacToe.Grid.PlaceMark | TicTacToe/lib/grid.rb:9-14 | false and no change when the position is off the board or occupied; otherwise true and exactly that cell becomes the symbol; a placed mark is never overwritten |
| Hangman.Downcase | Hangman/hangman.rb:47 | upper-case ASCII letters become lower case; every other character is kept |
| Hangman.NewGameConsistent | Hangman/hangman.rb:17-22 | a new game is consistent |
| Hangman.RevealProgress | Hangman/hangman.rb:50-54 | a new correct letter keeps the game consistent and strictly reduces the hidden letters |
| Hangman.MissKeepsConsistent | Hangman/hangman.rb:55-57 | a new wrong letter keeps the game consistent and costs exactly one guess |
| Hangman.WonMeansSolved | Hangman/hangman.rb:34-36 | no '_' left iff the whole secret is shown, for a secret without '_' |
| Hangman.UnderscoreCountsAsGuessed | Hangman/hangman.rb:42-44 | '_' counts as already guessed while a letter is hidden |
| Hangman.Hangman.constructor | Hangman/hangman.rb:17-22 | the secret is lower-cased, every letter is hidden and there are no wrong letters |
| Hangman.Hangman.RemainingGuesses | Hangman/hangman.rb:30-32 | remaining plus wrong letters is the allowance |
| Hangman.Hangman.GameWon | Hangman/hangman.rb:34-36 | in a consistent game, won iff the row spells the secret |
| Hangman.Hangman.GameLost | Hangman/hangman.rb:38-40 | lost iff the wrong letters reach the allowance |
| Hangman.Hangman.GuessLetter | Hangman/hangman.rb:46-59 | :already and no change for a repeated letter; :correct with every index holding the letter revealed; :wrong with the letter appended once; consistency is kept |
| Hangman.GameState.constructor | Hangman/hangman.rb:83-88 | the word is lower-cased, every letter is hidden and there are no bad guesses |
| Hangman.GameState.LeftAttempts | Hangman/hangman.rb:97-99 | attempts left plus bad guesses is the allowance |
| Hangman.GameState.Won | Hangman/hangman.rb:101-103 | in a consistent game, won iff the row spells the word |
| Hangman.GameState.Lost | Hangman/hangman.rb:105-107 | lost iff the bad guesses reach the allowance |
| Hangman.GameState.Submit | Hangman/hangman.rb:113-124 | the rules of `guess_letter`, with :hit and :miss |
| MergeSort.Merged | Recursion/MergeSort.rb:79-95 | the merge has as many elements as both inputs |
| MergeSort.Sorting | Recursion/MergeSort.rb:68-76 | the sort keeps the length |
| MergeSort.MergedPermutation | Recursion/MergeSort.rb:11-25 | the merge is a permutation of the two inputs together |
| MergeSort.MergedSorted | Recursion/MergeSort.rb:79-95 | the merge of two sorted lists is sorted |
| MergeSort.MergedStable | Recursion/MergeSort.rb:17 | ties go left, so the elements of each key appear as in a followed by b |
| MergeSort.SortingCorrect | Recursion/MergeSort.rb:1-9 | the sort returns a sorted permutation of its input |
| MergeSort.SortingStable | Recursion/MergeSort.rb:68-76 | the sort is stable: the elements of each key keep their input order |
| MergeSort.SplitShrinks | Recursion/MergeSort.rb:2-6 | lists of at most one element come back unchanged; otherwise both halves are strictly shorter |
| MergeSort.JoinSorted | Recursion/MergeSort.rb:11-25 | the `shift` loop on copies computes the merge; the arguments are values and stay unchanged |
| MergeSort.DivideAndSort | Recursion/MergeSort.rb:1-9 | computes the sort, a sorted permutation of the list |
| MergeSort.Merge | Recursion/MergeSort.rb:79-95 | the index loop computes the same merge |
| MergeSort.MergeSort | Recursion/MergeSort.rb:68-76 | computes the sort, a sorted permutation of the array |
| BubbleSort.SwapRemovesOneInversion | bubblesort.rb:8-9 | swapping an adjacent inverted pair removes exactly one inversion |
| BubbleSort.SwapIsPermutation | bubblesort.rb:9 | an adjacent swap keeps the multiset of elements |
| BubbleSort.AdjacentOrderedIsSorted | bubblesort.rb:4-13 | a pass without a swap means the array is sorted |
| BubbleSort.Sort | bubblesort.rb:1-16 | sorts the array in place, ascending, as a permutation of its input |
| BubbleSort.ShortListUnchanged | bubblesort.rb:7 | an array of at most one element is its own only permutation, so it comes back unchanged |
| BubbleSort.NoInversionsIffSorted | bubblesort.rb:8 | no inversions iff sorted |
| StockPicker.NoPairAboveStep | stockpicker.rb:6-21 | selling today against the lowest earlier price is the best sale today |
| StockPicker.PickStock | stockpicker.rb:1-24 | [0, 0] when no pair profits; otherwise the best profit over all pairs, the earliest sell day reaching it, and the first lowest price before it |
| StockPicker.BestPairUnique | stockpicker.rb:1-24 | that promise fixes the answer |
| StockPicker.NoProfitGivesZeroZero | stockpicker.rb:3-4 | prices that never rise, including no prices, give [0, 0] |
| StockPicker.PickStockExample | stockpicker.rb:26-27 | the sample gives [1, 4] |
| Cipher.ShiftChar | cipher/cipher.rb:5-12 | non-letters are copied; letters keep their case and move by `shift` modulo 26 |
| Cipher.Caesar | cipher/cipher.rb:1-17 | the output has the input's length, with the shift applied to each character |
| Cipher.CaesarCipher | cipher/cipher.rb:1-17 | the `each_char` loop computes the cipher |
| Cipher.ShiftCharRoundTrip | cipher/cipher.rb:8 | shifting by s and then by -s restores a character |
| Cipher.CaesarRoundTrip | cipher/cipher.rb:1-17 | shifting by s and then by -s restores the string |
| Cipher.CaesarCongruentShifts | cipher/cipher.rb:8 | shifts congruent modulo 26 give equal output |
| Cipher.CaesarZeroIsIdentity | cipher/cipher.rb:8 | a zero shift is the identity |
| Cipher.CaesarExample | cipher/cipher.rb:19 | "What a string!" with 5 gives "Bmfy f xywnsl!" |
| Substrings.NoMatchByFirstChar | substrings/substrings.rb:5 | a word whose first letter appears at no possible start position does not match |
| Substrings.OccurrencesAppend | substrings/substrings.rb:4-7 | occurrences in a concatenation add up |
| Substrings.Substrings | substrings/substrings.rb:1-10 | the keys are exactly the listed words occurring in the pattern; each maps to how often it is listed; no count is 0 |
| Substrings.SubstringsExample | substrings/substrings.rb:12-13 | "below" with the sample list gives {"below" => 1, "low" => 1} |
| Substrings.MatchIsCaseSensitive | substrings/substrings.rb:5 | "low" matches "below" but "Low" does not |
| Fibonacci.GenFibRecursive | Recursion/Fibonacci.rb:13-20 | n elements, and none for n <= 0 |
| Fibonacci.GenFibRecursiveIsFib | Recursion/Fibonacci.rb:13-20 | element i is the i-th Fibonacci number |
| Fibonacci.GenFibRecursiveExtends | Recursion/Fibonacci.rb:18-19 | the result for n is the result for n - 1 with one element appended |
| Fibonacci.SumOfTwoBefore | Recursion/Fibonacci.rb:16-19 | the prefix starts 0, 1, and each later element is the sum of the two before it |
| Fibonacci.GenFib | Recursion/Fibonacci.rb:1-11 | the loop yields the recursive generator's result, element i being the i-th Fibonacci number |
| Enumerables.MyEach | custom_enumerable_project-main/custom_enumerable_project-main/lib/my_enumerables.rb:24-32 | the block sees the elements in index order (a left fold of its effect); the receiver is returned |
| Enumerables.MyEachWithIndex | custom_enumerable_project-main/custom_enumerable_project-main/lib/my_enumerables.rb:34-41 | the block also receives the indices 0, 1, 2, ...; the receiver is returned |
| Enumerables.MyInject | custom_enumerable_project-main/custom_enumerable_project-main/lib/my_enumerables.rb:43-47 | a left fold from the initial value |
| Enumerables.MyMap | custom_enumerable_project-main/custom_enumerable_project-main/lib/my_enumerables.rb:49-53 | same length, with element i equal to f(x_i) |
| Enumerables.MySelect | custom_enumerable_project-main/custom_enumerable_project-main/lib/my_enumerables.rb:60-64 | the accepted elements, in order |
| Enumerables.MyCount | custom_enumerable_project-main/custom_enumerable_project-main/lib/my_enumerables.rb:18-22 | the number of accepted elements |
| Enumerables.MyAny | custom_enumerable_project-main/custom_enumerable_project-main/lib/my_enumerables.rb:11-16 | true iff some element is accepted, stopping at the first; false on empty input |
| Enumerables.MyNone | custom_enumerable_project-main/custom_enumerable_project-main/lib/my_enumerables.rb:55-58 | true iff no element is accepted, leaving at the first that is |
| Enumerables.MyAll | custom_enumerable_project-main/custom_enumerable_project-main/lib/my_enumerables.rb:6-9 | true iff every element is accepted |
| Enumerables.FilterMembers | custom_enumerable_project-main/custom_enumerable_project-main/lib/my_enumerables.rb:60-64 | selecting keeps exactly the accepted elements |
| Enumerables.FilterAppend | custom_enumerable_project-main/custom_enumerable_project-main/lib/my_enumerables.rb:60-64 | selecting keeps the original order: the selection of a concatenation is the concatenation of the selections |
| Enumerables.CountIsFilterLength | custom_enumerable_project-main/custom_enumerable_project-main/lib/my_enumerables.rb:18-22 | the count is the length of the selection |
| Enumerables.CountAll | custom_enumerable_project-main/custom_enumerable_project-main/lib/my_enumerables.rb:6-22 | the count is at most the length; it equals the length iff all are accepted, and is 0 iff none is |
| Enumerables.QuantifiersByCount | custom_enumerable_project-main/custom_enumerable_project-main/lib/my_enumerables.rb:6-16 | all? and any? agree with the count; on empty input all? is true and the count is 0 |
| Enumerables.CountWithoutBlock | custom_enumerable_project-main/custom_enumerable_project-main/lib/my_enumerables.rb:20 | without a block, everything except nil and false counts |

## Left out

- Console and file I/O are not modelled:
  - Hangman: `display_state`, `display`, the dictionary download, the word-list loading, the save files, YAML (de)serialisation and the `run` loop.
  - MasterMind: `Board#print_board`, `Board#set_players_role`, `Codecracker#guess_code`, the input loop of `PlayerCodemaker#set_code` and the `game.rb` driver.
  - TicTacToe: `Grid#to_s`.
  - Enumerables: `log_info`.
  - The top-level demo calls of each script, except those restated as example lemmas.
- Randomness is a parameter:
  - `ComputerCodemaker#set_code` becomes `SetCode` with the drawn code given;
  - each `shuffle.sample` colour is a parameter satisfying `Sampled`;
  - each `shuffle` of the present colours is an element of the `draws` stream.
- Codecrackers.Codecracker.ShuffleGuess: the source loops until it finds an unanswered guess, drawing as many shuffles as needed. The model receives a finite stream of shuffles and returns false when they run out first.
- The lines Hangman/hangman.rb:61-67 are not valid Ruby: an unclosed hash literal with a second program pasted into it. Only the two classes' guess logic is modelled. The `GameState` lines come from the pasted program.
- Hangman.Hangman.GuessLetter: a guess is one character, and `downcase` is ASCII only. The `run` loop only submits single ASCII letters.
- Hangman.GameState.Submit: the same restriction on guesses.
- `GameState.restore` and its default `max_mistakes` are left out with the YAML code.
- Hangman.Hangman.constructor: the limit of wrong guesses is a required argument. Hangman/hangman.rb:17 lets it default to `MAX_INCORRECT` (6); the model does not provide that default.
- Hangman.GameState.constructor: the same for `max_mistakes`, which Hangman/hangman.rb:83 lets default to `MAX_MISTAKES` (6).
- Ruby `nil` is modelled in two ways:
  - as `""` for the sampled colour and for `LastOf` of an empty list;
  - as `None` in `Option` for `get`, `remove`, the code copy and `has_winner?`.
- HashMaps.HashMap.GrowIfNeeded: the float comparison `count / capacity > 0.75` is the integer test `4 * count > 3 * capacity`.
- HashMaps.HashMap.Set: when the call grows the table, the contract gives the new map, count and capacity but not the order of the entries inside the new buckets (old buckets re-inserted in table order). The same holds for HashMaps.HashMap.GrowIfNeeded.
- The bucket list is a `seq` field that the methods reassign. A bucket's in-place `<<`, `entry[1] = value` and `delete_at` become a new bucket stored at the same index.
- HashMaps.HashMap.EntryList returns the pairs as values. Ruby returns the live `[key, value]` arrays, and mutating one of them would change the map; that aliasing is not modelled.
- HashTables.Hash: `each_byte` is modelled by taking the key as its sequence of bytes. String encoding is not modelled.
- `(list.size / 2.0).floor` in MergeSort.rb is the integer `n / 2`.
- BubbleSort.Sort sorts an array of integers. bubblesort.rb:8 compares any values Ruby can order with `>`; other element types are not modelled.
- MergeSort elements are compared through an integer key, and the sort is generic in the element type. Ruby's `<=` on arbitrary objects is not modelled.
- Enumerables.MyInject takes the initial value as an argument; the default of 0 is not modelled. The Ruby block's side effects are modelled as a state threaded through `my_each`.
- Substrings.Substrings: `pattern.match(word)` compiles each word as a regular expression. The model treats a word as a literal string and tests whether it occurs in the pattern, which is the same for words made of letters only.
- Cipher: the `/[A-Za-z]/` test is the ASCII letter test.
- Enumerables.MyNone always takes a predicate. my_enumerables.rb:56 yields without a `block_given?` guard, so without a block Ruby raises on non-empty input and returns true on empty input; that case is not modelled.
- Enumerables.MySelect, and likewise Enumerables.MyEach, Enumerables.MyEachWithIndex, Enumerables.MyInject and Enumerables.MyMap, always take a block. my_enumerables.rb:28, :37, :45, :51 and :62 yield without a `block_given?` guard. Called without a block, Ruby raises on non-empty input; on empty input it returns the receiver, the initial value or `[]`. That case is not modelled; only `MyAll`, `MyAny` and `MyCount` model the call without a block.
- TicTacToe.Grid.PlaceMark takes the mark as a `char`. grid.rb:9 stores whatever symbol it is given; match.rb passes only 'X' and 'O'.
- StockPicker.PickStock takes the prices as integers. stockpicker.rb works on any numbers Ruby can compare and subtract, floats included; those are not modelled.
- Substrings.Substrings returns a `map`, which has no order. The Ruby Hash lists the words in the order of the dictionary entries that matched first; that order is not modelled.
- MasterMind's `split(' ')` and `rstrip` are modelled for the space character only. Tabs and other whitespace are not modelled.
- Boards.Board.InsertGuess requires at most four guess words. With a fifth word the source would write a string into the key-peg column; the driver's input check rules that out.
- Boards.Board.InsertKeyPegs requires red + white <= 4, which `check_guess` guarantees (`Codemakers.ScoreBound`). Writing past the fourth slot would grow the Ruby array, and that is not modelled.
- The colour escape codes on the board are kept as strings, while `print_board` layout is not modelled.
- TicTacToe/lib/match.rb is not part of this model. It is a console loop that alternates players.
- Codemakers.WhitePass, Codecrackers.Codecracker.RecordAndGenerate, Codecrackers.PickFresh, Codecrackers.SpaceEach, Codecrackers.AppendCopies and HashMaps.HashMap.Insert/ReinsertBucket are not methods of the source. Each holds one loop or one step of a source method, split off so that it can be specified on its own.
