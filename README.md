# Crossword construction core, modelled in Dafny

This project models the grid and search logic of a small crossword toolkit. The toolkit has three parts.

- **Fixed-size block-pattern builders** (`generate_puzzle.py`, 13 x 13; `generate_puzzle2.py`, 15 x 15).
  - They draw a point-symmetric black/white pattern.
  - They check that the white cells are connected and that every run is long enough.
  - They extract the numbered across and down slots.
  - They assign the theme answers to slots of their length by backtracking.
  - They fill the remaining slots by most-constrained-first backtracking over a shared letter board, undoing exactly the cells each step fixed.
  - They read off the numbered entries and score them.
- **Sparse-canvas placers** (`build_final_layout.py`, `build_puzzle_final.py`, `rebuild_custom_puzzle.py`).
  - They chain answers onto a dictionary-backed canvas through crossings.
  - Placement legality is checked by `can_place`.
  - Board and per-cell usage counts are updated by `add_word`/`remove_word` or `place`/`unplace`.
  - Results are cropped to their bounding box, numbered, and checked for accidental entries.
- **The solver page** (`src/app.js`).
  - Numbering and clue starts.
  - The run through a cell.
  - Cursor movement.
  - The filled and solved tests.
  - The check, reveal and clear handlers.

Modules follow that structure:

- `Common`, `Runs`, `Pattern`, `Connectivity`, `RunCheck`, `Slots`, `Validity`, `Themes`, `Lexicon`, `Crossings`, `FillSpec`, `Fill` and `Grids` cover the block-pattern builders. One definition serves both builders wherever their code agrees; a flag or parameter selects a builder's variant where it differs.
- `Canvas`, `Candidates`, `Crop`, `Order`, `Layouts`, `Checks`, `Scores`, `Freeform`, `Grow`, `Puzzle` and `Rebuild` cover the sparse-canvas placers.
- `Numbering` is shared by every grid-numbering routine, in Python and in JavaScript.
- `Solver` covers the page.

State the source updates in place is modelled as state:

- The pattern and the page's `entries`/`marks` are `array2`s.
- The sparse canvas is a class with `board` and `usage` maps.
- The fill search and the theme search are classes whose methods restore their fields on failure.

Random choices are inputs. These are a coin function for block draws, and permutation functions or given lists for shuffles and tie-breaking sort keys.

## Model

| member | source | states |
|---|---|---|
| Runs.RunEnd | generate_puzzle2.py:111 | the inner scan stops at the first block at or after its start, or at the line's end, having passed only white cells |
| Runs.RunStart | generate_puzzle.py:128-130 | the leftward scan stops at the first cell of the white run holding the cell: everything between is white and the cell before is a block or off the line |
| Runs.RunsFromSound | generate_puzzle2.py:127-131 | every run the line scan reports is a maximal white run lying at or after the scan's start |
| Runs.RunsFromComplete | generate_puzzle2.py:127-131 | every maximal white run at or after the scan's start is reported |
| Runs.RunsFromOrdered | generate_puzzle2.py:126-133 | the reported runs are non-empty and come strictly left to right, separated by at least one block |
| Runs.LongRunsEquivalent | generate_puzzle2.py:104-121 | "every reported run is at least 3 long", "every maximal run is at least 3 long" and "the run around every white cell is at least 3 long" are the same condition on a line |
| Pattern.RandBlocks | generate_puzzle2.py:72-82 | the fresh n x n pattern has every cell written with the random decision drawn for its canonical representative (the cell or its mirror, whichever comes first in row-major order) |
| Pattern.DrawRow | generate_puzzle2.py:75-81 | one row of the synthesis decides every canonical cell of that row together with its mirror, without disturbing the rows decided before, and advances the draw counter by the number of draws made |
| Pattern.AllDecided | generate_puzzle2.py:74 | once the upper half (and the centre row) are decided, every cell of the pattern is: the loop bound (SIZE+1)//2 covers all canonical cells |
| Pattern.CanonicalCellsApart | generate_puzzle2.py:77-81 | writing a canonical cell and its mirror never overwrites a canonical cell visited earlier or that cell's mirror |
| Pattern.CanonicalRow | generate_puzzle.py:56-60 | every canonical cell lies in the rows the synthesis visits, and a cell that is skipped has a canonical mirror |
| Pattern.DrawIndexSymmetric | generate_puzzle.py:58-63 | a cell and its mirror are decided by the same draw |
| Pattern.SynthesisedSymmetric | generate_puzzle.py:54-64 | whatever the draws, a synthesised pattern satisfies b[r][c] == b[n-1-r][n-1-c] for every cell |
| Pattern.WhitesFromSpec | generate_puzzle2.py:85-86 | the comprehension from (r, c) on lists exactly the white cells at or after (r, c), in strictly increasing row-major order |
| Pattern.WhiteListSpec | generate_puzzle.py:101-102 | `white_list` / `white_cells` lists every white cell exactly once, in row-major order, so its head is the first white cell and its length is the number of white cells |
| Connectivity.AdjacentStep | generate_puzzle2.py:97 | the four steps of the search reach exactly the edge-adjacent cells |
| Connectivity.ReachableSymmetric | generate_puzzle2.py:89-101 | reachability through white cells is symmetric |
| Connectivity.ReachableTransitive | generate_puzzle2.py:89-101 | reachability through white cells is transitive |
| Connectivity.ConnectedFromOne | generate_puzzle2.py:93 | starting the search from a single white cell suffices: every white cell reaches every other one exactly when the start reaches every white cell |
| Connectivity.VisitNeighbours | generate_puzzle2.py:97-100 | every white in-bounds neighbour of the dequeued cell ends up seen, exactly the newly seen cells are queued, and every seen cell stays white and reachable from the start |
| Connectivity.ClosureKept | generate_puzzle2.py:95-100 | after a cell is dequeued and expanded, every seen cell that has left the queue has all its white neighbours seen |
| Connectivity.ClosedHoldsPath | generate_puzzle2.py:95-100 | a set of cells closed under white neighbours that holds the start of a path holds its end, so the flood from one white cell has met every cell reachable from it |
| Connectivity.SearchOutcome | generate_puzzle2.py:101 | when the queue is empty, "seen as many cells as there are white cells" holds exactly when the pattern is connected |
| Connectivity.SearchStep | generate_puzzle2.py:95-100 | one turn of the outer loop keeps the search invariant and either sees a new cell or shortens the queue |
| Connectivity.IsConnected | generate_puzzle.py:105-119 | `is_connected` / `connected` is true exactly when there is a white cell and every white cell reaches every other one through edge-adjacent white cells (false on an all-block pattern) |
| RunCheck.LineRunsOk | generate_puzzle2.py:106-112 | the scan of one line passes exactly when every run it reports is at least 3 long |
| RunCheck.RunsOk | generate_puzzle2.py:104-121 | `runs_ok` is true exactly when every maximal white run of every row and column is at least 3 long |
| RunCheck.ScanBack | generate_puzzle.py:128-130 | the leftward (upward) scan stops on the first cell of the run |
| RunCheck.ScanForward | generate_puzzle.py:131-133 | the rightward (downward) scan stops on the last cell of the run |
| RunCheck.CellOk | generate_puzzle.py:126-141 | a cell passes exactly when it is a block or both its across and its down run span at least 3 cells |
| RunCheck.MinRunOk | generate_puzzle.py:122-142 | `min_run_ok` is true exactly when every white cell lies on an across run and a down run of length at least 3 |
| RunCheck.LongNextCell | generate_puzzle.py:124-125 | the row-major scan of `min_run_ok` extends its "all cells so far pass" invariant by one cell |
| RunCheck.RunChecksAgree | generate_puzzle.py:122-142 | the two builders' run checks accept exactly the same patterns |
| Slots.ScanLine | generate_puzzle2.py:127-133 | scanning one line appends one slot per run of length at least 3, numbered on from the slots before |
| Slots.ExtractSlots | generate_puzzle.py:67-98 | `extract_slots` returns the across slots row by row and then the down slots column by column, each numbered by its position |
| Slots.SegsOfRunsMembers | generate_puzzle2.py:132-133 | the slots made from the runs of a line are exactly its runs of length at least 3 |
| Slots.LineSegsSound | generate_puzzle2.py:126-133 | every slot of a line is a maximal white run of length at least 3 of that line |
| Slots.LineSegsComplete | generate_puzzle2.py:126-133 | every maximal white run of length at least 3 of a line is one of its slots |
| Slots.AcrossUpToSpec | generate_puzzle2.py:126-133 | the across slots of the rows scanned so far are sound and complete for those rows |
| Slots.DownUpToSpec | generate_puzzle2.py:134-141 | the down slots of the columns scanned so far are sound and complete for those columns |
| Slots.SlotSegsSpec | generate_puzzle2.py:124-142 | the slots are exactly the maximal white runs of length at least 3 in either direction, and the across slots come before the down slots |
| Validity.CountLength | generate_puzzle2.py:156-158 | the count of slots of a length is positive exactly when some slot has that length |
| Validity.CountLengths | generate_puzzle2.py:156-158 | the `lengths` table gives every length the number of slots of that length (zero when absent) |
| Validity.NumberedUnique | generate_puzzle2.py:124-142 | the numbered slot list is determined by the runs it is built from |
| Validity.ValidPattern15 | generate_puzzle2.py:145-162 | the 15x15 `valid_pattern` accepts exactly the patterns with 95..145 white cells, connected, no run shorter than 3, 38..72 slots and a slot of every theme answer's length |
| Validity.ValidPattern13 | generate_puzzle.py:145-156 | the 13x13 `valid_pattern` accepts exactly the patterns with 70..110 white cells, connected, every white cell on across and down runs of length at least 3, and 20..40 slots |
| Validity.MissingLengthRejected | generate_puzzle2.py:159-161 | a pattern without a slot of some theme answer's length is rejected whatever else holds of it |
| Themes.SidsOfLength | generate_puzzle2.py:166-168 | the bucket of a length holds exactly the sids of the slots of that length |
| Themes.BuildByLen | generate_puzzle.py:174-176 | the `slots_by_len` table maps every length to the sids of that length, in slot order |
| Themes.CountLenPermutation | generate_puzzle2.py:169 | reordering the answers does not change how many have each length |
| Themes.RemoveAt | generate_puzzle2.py:173 | taking one answer out removes one of it and one of its length |
| Themes.ExtendableIffEnough | generate_puzzle2.py:171-181 | the backtracking can place the answers in distinct free slots of their lengths exactly when no length has more answers than free slots |
| Themes.ExtendableAnyOrder | generate_puzzle.py:178-179 | the order the answers are sorted into does not change whether they can be placed |
| Themes.Insert | generate_puzzle2.py:169 | inserting an answer keeps the list sorted by scarcity and adds exactly that answer |
| Themes.SortByScarcity | generate_puzzle2.py:169 | the sorted answers are a permutation of the input, ordered by how many slots have their length |
| Themes.ThemeSearch.constructor | generate_puzzle2.py:170 | the search starts with no slot used and an empty mapping |
| Themes.ThemeSearch.Push | generate_puzzle2.py:178 | `used.add(sid); mapping[sid] = ans`: the slot becomes used and mapped to the answer, and the search state stays consistent |
| Themes.ThemeSearch.Pop | generate_puzzle2.py:180 | `used.remove(sid); del mapping[sid]` restores `used` and `mapping` exactly as they were before the push |
| Themes.ConsistentPop | generate_puzzle2.py:178-180 | removing the slot just added gives back the earlier `used` set and `mapping` |
| Themes.ThemeSearch.Bt | generate_puzzle2.py:171-181 | `bt(i)` either places all remaining answers, keeping the earlier choices, or leaves `used` and `mapping` unchanged and there is no placement of the remaining answers |
| Themes.ThemeSearch.Try | generate_puzzle2.py:176-180 | trying one free slot either completes the search or frees the slot again, and then no placement of the rest avoids that slot |
| Themes.NoneFits | generate_puzzle2.py:176-181 | when every slot of the first answer's length is used or a dead end, the answers cannot be placed |
| Themes.ThemeToSlots | generate_puzzle2.py:165-182 | `theme_to_slots` / `assign_theme_slots` returns a mapping that gives every answer its own slot of its length and nothing else, and returns None exactly when some length has fewer slots than answers |
| Themes.Placed | generate_puzzle2.py:182 | the state of a successful search is a mapping with one slot per answer, each of its answer's length |
| Themes.ChosenExtendable | generate_puzzle2.py:171-182 | distinct slots found for all answers witness that the answers can be placed |
| Lexicon.Upper | generate_puzzle2.py:27 | upper-casing keeps the length and maps each letter to its capital |
| Lexicon.CountInZero | generate_puzzle2.py:31 | no letter of the word is in the set exactly when the count is zero |
| Lexicon.Admit | generate_puzzle2.py:24-38 | an admitted line is a lower-case word, returned upper-cased with 3..size letters |
| Lexicon.AdmitSpec | generate_puzzle2.py:24-38 | a line is admitted exactly when it is lower-case letters only, 3..size long, has a vowel (Y counted), is not made of two or fewer distinct letters when longer than 4, and (15x15 builder only) has at most two of J, Q, X, Z |
| Lexicon.RareCapStricter | generate_puzzle.py:23-34 | every word of at most 13 letters the 15x15 filter admits is admitted by the 13x13 filter too |
| Lexicon.UpperInjective | generate_puzzle2.py:25-27 | distinct admitted lines give distinct words |
| Lexicon.AddWord | generate_puzzle2.py:39 | adding a word puts it in the bucket of its length and changes no other bucket |
| Lexicon.AdmitLines | generate_puzzle.py:21-35 | the dictionary pass puts in the bucket of each length exactly the admitted words of that length |
| Lexicon.LoadWords | generate_puzzle.py:19-38 | `load_words` over supplied lines: each bucket holds exactly the admitted words and the theme answers of its length |
| Lexicon.BuildPositions | generate_puzzle2.py:189-191 | the position index of a bucket has one table per position |
| Lexicon.PositionsExact | generate_puzzle2.py:188-191 | word id i is listed under (p, ch) exactly when word i has ch at position p |
| Lexicon.BuildIndexes | generate_puzzle2.py:185-193 | `build_indexes` has one entry per length, holding that length's word list and a position index as long as the words |
| Lexicon.IndexLookup | generate_puzzle2.py:185-193 | looking up (L, p, ch) in the built index yields exactly the ids of the words of length L with ch at position p |
| Crossings.Add | generate_puzzle.py:168-169 | `cross[s].append(e)` appends e to the list of s and leaves every other list alone |
| Crossings.CellRefs | generate_puzzle.py:160-163 | the first loop builds `cell_to_slots`: every covered cell is a key, listed once in insertion order, with the (sid, index) references to it in slot and then index order |
| Crossings.SlotCells | generate_puzzle.py:162-163 | the inner loop over one slot's cells extends the table by exactly that slot's references |
| Crossings.TableStep | generate_puzzle.py:163 | recording one position keeps the table exact |
| Crossings.Crosses | generate_puzzle.py:164-169 | the second loop records, for every cell with exactly two references, the crossing in both slots' lists |
| Crossings.CrossStep | generate_puzzle.py:165-169 | one cell of the second loop records its crossing both ways, or nothing when it does not have exactly two references |
| Crossings.BuildCrossings | generate_puzzle.py:159-170 | (i, t, j) is listed for slot s exactly when some cell is referenced by exactly the two positions (s, i) and (t, j) |
| Crossings.CrossesAll | generate_puzzle.py:164-170 | since every covered cell is a key of the table, the recorded crossings are all the crossings |
| Crossings.CrossingSymmetric | generate_puzzle.py:168-169 | (i1, s2, i2) is a crossing of s1 exactly when (i2, s1, i1) is a crossing of s2 |
| Crossings.RefsUpToSpec | generate_puzzle.py:161-163 | a reference is in the table exactly when that position of that slot is the cell |
| Crossings.RefsUpToNoDup | generate_puzzle.py:161-163 | with slot ids in extraction order, no reference is listed twice |
| Crossings.CrossingShared | generate_puzzle.py:166-167 | a crossing joins two different slot positions holding the same cell, and no third position holds that cell |
| FillSpec.CoveredAgrees | generate_puzzle.py:232-235 | a word whose letters are all on the board agrees with the board |
| FillSpec.Matching | generate_puzzle.py:228-237 | the kept words are exactly the words of the list that agree with every fixed letter and are not used, in list order |
| FillSpec.Take | generate_puzzle.py:239 | `out[:cap]` keeps at most cap elements, all from the list, and all of them when the list is not longer than cap |
| FillSpec.CandidatesSound | generate_puzzle.py:225-239 | every candidate has the slot's length, agrees with every fixed cell and is not used |
| FillSpec.CandidatesBound | generate_puzzle2.py:253-254 | a candidate list has at most cap entries (350 in the 15x15 builder, 250 in the 13x13 one) |
| FillSpec.CandidatesComplete | generate_puzzle.py:228-239 | when the cap does not bite, every agreeing unused word of the slot's length is a candidate |
| Fill.RemoveFirst | generate_puzzle2.py:276 | `unfilled.remove(sid)` takes out one copy of sid |
| Fill.RemoveFirstNoDup | generate_puzzle2.py:276 | in a list without duplicates, removing sid leaves every other sid and no copy of sid |
| Fill.TracksOpen | generate_puzzle2.py:276 | taking the chosen sid out of `unfilled` keeps every slot either assigned, waiting, or being tried |
| Fill.TracksClose | generate_puzzle2.py:295 | `unfilled.append(sid)` after all candidates failed restores the bookkeeping |
| Fill.StatePermute | generate_puzzle2.py:295 | the search state does not depend on the order of `unfilled` |
| Fill.Unassign | generate_puzzle2.py:293 | `del assign[sid]; used.remove(w)` restores the assignment and the used set exactly |
| Fill.Restored | generate_puzzle2.py:294 | erasing exactly the cells a step newly wrote gives back the board from before the step |
| Fill.StateAssign | generate_puzzle2.py:290 | assigning a written, unused word from the list to the slot being tried keeps the search state |
| Fill.FitsGrow | generate_puzzle2.py:286 | writing more letters keeps every assigned word on the board |
| Fill.StateSolution | generate_puzzle2.py:270-271 | a state with nothing unfilled is a completed fill |
| Fill.NarrowStep | generate_puzzle2.py:230-238 | one step of the index intersection keeps `possible` equal to the ids of the words agreeing with the fixed cells seen so far |
| Fill.MatchingStep | generate_puzzle2.py:246-250 | extending the scanned word list by one word adds that word to the kept ones exactly when it agrees and is unused |
| Fill.MatchingNone | generate_puzzle2.py:239-240 | when no word agrees with the board, none is kept |
| Fill.ScanNext | generate_puzzle2.py:260-264 | a slot with more than one candidate becomes the choice when it has fewer than the current best, and the scan goes on |
| Fill.ScanStop | generate_puzzle2.py:265-266 | the scan stops at a slot with at most one candidate, having kept the first slot with fewest candidates |
| Fill.Filler.constructor | generate_puzzle2.py:205-207 | the search starts from an empty board, `assign == forced`, `used` the forced words and every other sid waiting in `unfilled`; the cap is 350 for the index search and 250 for the scan |
| Fill.Filler.AgreesBoard | generate_puzzle.py:232-235 | the letter test passes exactly when the word agrees with every fixed cell of the slot |
| Fill.Filler.CandidatesScan | generate_puzzle.py:225-239 | the 13x13 `candidates_for` returns the slot's candidate list: the agreeing unused words of its length, reordered and capped at 250 |
| Fill.Filler.CandidatesIndexed | generate_puzzle2.py:224-256 | the 15x15 `candidates` by index intersection returns the same list as scanning every word of the length, reordered and capped at 350 |
| Fill.Filler.NoneAgree | generate_puzzle2.py:239-240 | an empty intersection means the candidate list is empty |
| Fill.Filler.CandidatesFor | generate_puzzle2.py:220-256 | whichever way they are found, a slot's candidates are its candidate list |
| Fill.Filler.Choose | generate_puzzle2.py:258-267 | `choose()` returns a waiting slot with its candidates: the first slot with fewest candidates among those scanned, where the scan stops at the first slot with at most one |
| Fill.Filler.Write | generate_puzzle2.py:280-286 | the letter loop writes the word into empty cells only, records exactly those in `changed`, leaves fixed cells as they were, covers the slot when it does not stop, and stops only on a disagreeing cell |
| Fill.Filler.Erase | generate_puzzle2.py:288 | `for cell in changed: del letters[cell]` removes exactly those cells |
| Fill.Filler.Bt | generate_puzzle2.py:269-296 | on success every slot is assigned, extending the earlier assignment; on failure board, assignment and used words are exactly as before and `unfilled` holds the same sids |
| Fill.Filler.TryAll | generate_puzzle2.py:276-296 | trying the candidates in turn either completes the fill or, when all fail, restores everything and puts sid back in `unfilled` |
| Fill.Filler.TryWord | generate_puzzle2.py:278-294 | one candidate either completes the fill or is taken back completely |
| Fill.Filler.Place | generate_puzzle2.py:279-290 | a disagreeing word changes nothing; an agreeing one is written, assigned and marked used, and erasing the recorded cells gives back the old board |
| Fill.Filler.Undo | generate_puzzle2.py:293-294 | taking back a failed word restores assignment, used words and board exactly |
| Fill.Filler.Seed | generate_puzzle2.py:209-215 | seeding fails exactly when two forced words put different letters on one cell, and on success every forced word is on the board |
| Fill.Filler.SeedSlot | generate_puzzle2.py:211-215 | writing one forced word either finds a clash among the forced words or records all its letters |
| Fill.Filler.SeededAll | generate_puzzle2.py:209-215 | once every forced word is written without clash, the forced words are on the board |
| Fill.Unassigned | generate_puzzle2.py:217 | `unfilled` lists every sid not assigned, once, in slot order |
| Fill.Solve | generate_puzzle2.py:198-300 | `solve` / `solve_fill` returns None when two forced words clash, and any fill it returns gives every slot a word of its length, keeps the forced words, agrees at every shared cell, and uses only listed words; without a candidate cache it also repeats no word other than a forced one, as `solve_fill` of the 13 x 13 builder guarantees (generate_puzzle.py:229), which the cached 15 x 15 `solve` does not |
| Grids.LastIndex | generate_puzzle2.py:305-308 | the slot write that decides a cell is the last position holding it |
| Grids.MakeGrid | generate_puzzle2.py:303-309 | `make_grid` / `build_solution` returns an n x n grid whose every cell shows the letter of the last slot written over it, or '#' on a block and '?' on an uncovered white cell |
| Grids.WriteSlot | generate_puzzle.py:305-307 | writing one slot's word moves the grid from "slots before k written" to "slots up to k written" |
| Grids.PartialStep | generate_puzzle.py:306-307 | writing one letter changes exactly that cell |
| Grids.ShownCovered | generate_puzzle.py:304-307 | under a consistent fill every slot cell of the grid shows that slot's letter there |
| Grids.ShownUncovered | generate_puzzle.py:303 | a cell no slot covers keeps '#' on a block and '?' on a white cell |
| Grids.SolutionConsistent | generate_puzzle.py:302-308 | a completed fill assigns every slot a long enough word and is consistent at shared cells, so the grid shows it |
| Grids.HasTriple | generate_puzzle.py:345 | the scan is true exactly when some letter occurs three times in a row |
| Grids.RareCount | generate_puzzle.py:347 | the rare-letter count is the number of positions holding Q, X, Z or J, so it is zero exactly when there is none |
| Grids.ScoreEntries | generate_puzzle.py:340-350 | `score_entries` returns, in half-points, the sum over across and then down entries of 6 for a tripled letter, 1 per rare letter and 10 for at most two distinct letters |
| Grids.TotalAppend | generate_puzzle.py:341 | the score of `across + down` is the sum of the two scores |
| Grids.TotalZero | generate_puzzle.py:340-350 | the score is zero exactly when no entry has a tripled letter, a rare letter, or at most two distinct letters |
| Grids.TotalBound | generate_puzzle.py:344-349 | every entry's penalty is at most the score, so the score is never negative and never less than any one penalty |
| Scores.Abs | rebuild_custom_puzzle.py:257 | `abs(x)` is x or -x and never negative |
| Scores.FirstLowestKeep | rebuild_custom_puzzle.py:267 | a seed with no result, or one not scoring less, leaves the kept choice the first lowest |
| Scores.FirstLowestNew | rebuild_custom_puzzle.py:267-268 | the first seed with a result, or one scoring less than the kept one, becomes the first lowest |
| Numbering.RowMajor | src/app.js:507-508 | the scan visits all h * w cells of the grid, each once, and cell (r, c) comes at position r * w + c |
| Numbering.RowMajorIndex | src/app.js:507-508 | cell (r, c) is visited at position r * w + c |
| Numbering.RowMajorCells | src/app.js:507-508 | the scan visits exactly the cells of the grid, each once |
| Numbering.RunEnd | rebuild_custom_puzzle.py:168 | the rightward read stops at the first '#' or at the row's end, having passed only letters |
| Numbering.AcrossWord | rebuild_custom_puzzle.py:166-169 | the across word read from a cell is the row's slice up to the next block or the edge, has no '#', and has at least two letters at an across start |
| Numbering.DownWord | rebuild_custom_puzzle.py:172-175 | the down word read from a cell is the column's letters up to the next block or the edge, and has at least two letters at a down start |
| Numbering.ReadAcross | build_final_layout.py:222-225 | the word-reading loop returns the across word of the cell |
| Numbering.ReadDown | build_final_layout.py:228-231 | the word-reading loop returns the down word of the cell |
| Numbering.EnumerateEntries | build_final_layout.py:204-233 | `enumerate_entries` / `collect` returns the across and down entries of the whole grid, in row-major order of their start cells, each numbered by the convention |
| Numbering.ScanStep | rebuild_custom_puzzle.py:157-176 | the scan at one cell carries on the scan of the cells before it |
| Numbering.ScanAdvance | rebuild_custom_puzzle.py:157-176 | after one more cell the count goes up exactly when the cell starts an entry, and an across (down) entry with the current number and the cell's run is added exactly when it starts across (down) |
| Numbering.ExtendScan | generate_puzzle.py:318-336 | numbering one more cell adds its number and its entries and nothing else |
| Numbering.StartTests | src/app.js:512-513 | the start tests in the source are the across and down start conditions: the cell before is an edge or a block, and the cell after is inside the grid and white |
| Numbering.ScanCell | rebuild_custom_puzzle.py:158-176 | the body of the scan adds one to the count at a start cell and appends the across and down entries that start there, with the current number |
| Numbering.EntriesFrom | generate_puzzle2.py:319-328 | every entry the scan makes is made at one of the start cells it visits |
| Numbering.EntriesHave | generate_puzzle2.py:319-328 | the scan makes an entry at every start cell it visits |
| Numbering.EntriesSnoc | generate_puzzle2.py:314-328 | the entries of a longer scan are those of the shorter one plus the entry of the last cell when it starts one |
| Numbering.NumbersIncrease | build_puzzle_final.py:223-225 | the numbers of the entries in each direction strictly increase along the scan and lie between 1 and the count of numbered cells |
| Numbering.GridEntries | build_puzzle_final.py:212-240 | an entry is in the result exactly when it sits at a start cell of its direction and carries that cell's number and maximal run |
| Numbering.ScannedEntry | build_puzzle_final.py:212-240 | every entry of the result is at a start of its direction, with the cell's number and run |
| Numbering.EntryScanned | build_puzzle_final.py:212-240 | every start of a direction yields an entry of the result |
| Numbering.ScanPosition | src/app.js:507-508 | position k of the scan is the cell (k / w, k % w) |
| Numbering.NumbersKeys | src/app.js:515-518 | the number map holds exactly the start cells the scan has visited |
| Numbering.NumbersAt | src/app.js:515-518 | a start cell maps to one more than the start cells before it |
| Numbering.NumbersRange | src/app.js:515-518 | the numbers handed out are exactly 1, 2, ... up to the count of start cells |
| Numbering.GridNumbers | src/app.js:504-523 | `buildNumbering`'s map holds exactly the start cells, each with one more than the start cells before it in row-major order, and its values are exactly 1..k |
| Numbering.GridNumberKey | src/app.js:504-523 | a cell is in the number map exactly when it is in the grid and starts an entry |
| Numbering.GridNumberValue | src/app.js:504-523 | a start cell's number is one more than the start cells before it in row-major order |
| Numbering.NumberAdvance | src/app.js:509-519 | one more cell of the numbering scan adds that cell with the next number exactly when it starts an entry |
| Numbering.BuildNumbering | src/app.js:504-523 | `buildNumbering` returns the same number map as the entry scan: exactly the start cells, numbered 1..k in row-major order |
| Numbering.NumberCell | src/app.js:510-518 | the body of `buildNumbering` at one cell carries on the numbering of the cells before it |
| Numbering.ClueStarts | src/app.js:525-548 | over entries numbered in increasing order, the clue-start map sends each clued entry's number to that entry's start cell, and holds only clued numbers of entries |
| Numbering.IncreasingPrefix | src/app.js:527-528 | the entries before the last one keep increasing numbers, all below the last one's |
| Numbering.ClueStartsLast | src/app.js:539-544 | one more entry, numbered above all earlier ones, keeps the clue-start map exact |
| Numbering.ClueAdvance | src/app.js:530-544 | one more cell of `buildClueStarts` records that cell under its number in each direction it starts with a clue |
| Numbering.ClueStep | src/app.js:539-544 | scanning one more cell updates a direction's clue starts by that cell's entry when it has one whose number has a clue |
| Numbering.ClueSnoc | src/app.js:539-544 | an entry whose number has a clue sets its start; one without changes nothing |
| Numbering.BuildClueStarts | src/app.js:525-548 | `buildClueStarts` maps, for each direction, every number of an entry of that direction with a non-empty clue to the entry's start cell, and nothing else |
| Numbering.ClueRow | src/app.js:530-546 | the inner loop over one row records the clue starts of that row's cells |
| Numbering.ClueCell | src/app.js:531-545 | the body of `buildClueStarts` at one cell carries on the clue starts of the cells before it |
| Solver.FindFirstOpenCell | src/app.js:438-445 | `findFirstOpenCell` returns the first white cell in reading order, and null only when the grid has no white cell |
| Solver.RunUnique | src/app.js:481-502 | two maximal runs of one direction that share a cell are the same run, so the run through a cell is well defined |
| Solver.ActiveCells | src/app.js:481-502 | `getActiveCells` is empty for no cell or a block; otherwise it is the maximal white run of the direction through the cell, in order, and contains the cell |
| Solver.RunStart | src/app.js:490-494 | the backward walk stops on a white cell whose predecessor along the direction is a block or off the grid, with only white cells between it and the cell |
| Solver.RunFrom | src/app.js:496-500 | the forward walk collects consecutive white cells and stops at a block or the edge |
| Solver.OffGridBeyond | src/app.js:453-461 | once a walk has left the grid no later cell of it is white, so stopping at the edge loses nothing |
| Solver.SortedNumbers | src/app.js:331-334 | `getClueNumbers` lists exactly the clue numbers, in strictly increasing order |
| Solver.IndexOf | src/app.js:390 | `indexOf` gives the first position holding the number, or -1 exactly when there is no number or it is not in the list |
| Solver.Cycled | src/app.js:387-397 | `cycleClue` lands on a clue number of the list, and on none exactly when there are no clues |
| Solver.ForwardIndex | src/app.js:376-377 | the index `jumpToNextUnfilledClue` computes is in range: 0 when the current number is absent, else the next position wrapping round |
| Solver.CycledMoves | src/app.js:373-379 | stepping forward from a number of the list reaches a different number unless it is the only one |
| Solver.NextClueIndex | src/app.js:391-395 | `(index + step + n) % n` lies in 0..n-1: the next or previous position wrapping round, and from no current clue the first forwards or the last backwards |
| Solver.WrapOnce | src/app.js:395 | the remainder of a number between 0 and 2n by n is it, or it less n |
| Solver.CycleBackForth | src/app.js:387-397 | going to the next clue and then the previous one returns to the same clue, and the other way round |
| Solver.ClueStartsWhite | src/app.js:525-548 | every start cell `buildClueStarts` records starts an entry of its direction, so it is white |
| Solver.NewEntries | src/app.js:16 | the letters at start-up are "#" on blocks and empty on white cells |
| Solver.Index | src/app.js:27-28 | the page's numbering and clue starts are those of the grid, and every clue start is white |
| Solver.InitialSelection | src/app.js:549-559 | the cursor starts on 1 Across when it has a start, else on 1 Down when that has one, else, with the direction across, on the first white cell in reading order, or nowhere when the grid has no white cell; it is always white |
| Solver.Game.constructor | src/app.js:13-29 | the start-up state: solution, clue texts, "#" on blocks and empty white cells, no marks, the numbering and clue starts of the grid; the cursor on the start of 1 Across, else of 1 Down, else on the first white cell in reading order (none when there is none) with the direction across |
| Solver.Game.NextStop | src/app.js:447-462 | the walk finds the nearest stop strictly beyond the cell along the direction (white, and empty when looking for an unfilled cell), or finds there is none before the edge |
| Solver.Game.Walk | src/app.js:447-479 | the cursor moves to the nearest stop strictly beyond it along the direction, or stays when there is none; the direction is unchanged |
| Solver.Game.Move | src/app.js:447-462 | `move` moves the cursor to the nearest white cell strictly beyond it along the direction, or leaves it when there is none |
| Solver.Game.MoveToNextUnfilledCell | src/app.js:464-479 | `moveToNextUnfilledCell` moves the cursor to the nearest empty white cell strictly beyond it along the direction, or leaves it when there is none |
| Solver.Game.IsClueFilled | src/app.js:354-367 | `isClueFilled` is false when the clue has no start, and otherwise true exactly when every cell of the white run from the start holds a letter |
| Solver.Game.IsSolved | src/app.js:561-569 | `isSolved` is true exactly when every white cell holds its solution letter |
| Solver.Game.Check | src/app.js:43-50 | the check handler marks each filled white cell incorrect exactly when its letter differs from the solution, clears the mark of a filled correct one, and leaves every other cell and all entries alone |
| Solver.Game.Reveal | src/app.js:57-75 | after a confirmed reveal every white cell holds its solution letter with the "revealed" mark, blocks are untouched, and the puzzle is solved |
| Solver.Game.Clear | src/app.js:78-91 | the clear handler empties and unmarks every white cell and leaves blocks alone; a grid with a white cell is then not solved |
| Solver.Game.JumpToClue | src/app.js:337-344 | `jumpToClue` moves to the clue's start and takes its direction exactly when the clue has a start, and otherwise changes nothing |
| Solver.Game.Unfilled | src/app.js:369-371 | the unfilled numbers are exactly the listed numbers whose clue is not filled, and stay in increasing order |
| Solver.Game.UnfilledClueNumbers | src/app.js:369-371 | `getUnfilledClueNumbers` returns the increasing clue numbers whose answer is not all filled in |
| Solver.Game.UnfilledSnoc | src/app.js:370 | the filter keeps one more number exactly when its clue is not filled |
| Solver.Game.NextUnfilledClue | src/app.js:373-379 | the clue `jumpToNextUnfilledClue` picks is an unfilled clue, the one after the current number wrapping round (the first when the current one is not unfilled), different from the current one unless it is the only unfilled clue, and none exactly when all are filled |
| Solver.Game.JumpToNextUnfilledClue | src/app.js:373-379 | `jumpToNextUnfilledClue` moves to that clue's start when it has one, and reports false, changing nothing, when every clue is filled or the clue has no start |
| Solver.Game.JumpToFirstUnfilledClue | src/app.js:381-385 | `jumpToFirstUnfilledClue` moves to the lowest-numbered unfilled clue's start when it has one, and reports false, changing nothing, when there is none |
| Solver.Game.RunNumberUnique | src/app.js:346-352 | the clue number of a cell's run is well defined |
| Solver.Game.ClueNumberForCell | src/app.js:346-352 | `getClueNumberForCell` returns the number of the start of the run through the cell, or null for no cell or an unnumbered start |
| Solver.Game.NextClue | src/app.js:387-397 | `cycleClue` picks a clue number of the direction, from the number of the cursor's run, and none exactly when the direction has no clues |
| Solver.Game.CycleClue | src/app.js:387-397 | `cycleClue` moves the cursor to the start of the picked clue when it has one and leaves it otherwise; the direction is unchanged |
| Canvas.CellAtCovers | build_puzzle_final.py:61 | cell i of a word lies on its line at offset i |
| Canvas.CoverSet | build_puzzle_final.py:116-117 | the cells of the first n letters are exactly the cells the word covers |
| Canvas.PlacementCells | build_final_layout.py:57-63 | `Placement.cells()` yields (r, c+i, word[i]) across and (r+i, c, word[i]) down, one per letter in order |
| Canvas.Crossings | build_final_layout.py:80-90 | the crossing count of the first n letters is at most n |
| Canvas.CrossingWitness | build_final_layout.py:89-90 | the crossing count is positive exactly when some letter lands on the same letter already on the board |
| Canvas.CanPlace | build_final_layout.py:70-104 | `can_place` returns the crossing count when the cells just before and after the word are free, every letter is inside the canvas, no letter clashes with a different one and no non-crossing letter has an occupied side neighbour, and 0 otherwise |
| Canvas.AddedBoardAt | build_final_layout.py:120-122 | writing a word puts its letters on its cells and keeps every other cell's letter |
| Canvas.AddedUsageAt | build_final_layout.py:123 | `usage.get(cell, 0) + 1`: each covered cell's count goes up by one, starting from 0, and other counts stay |
| Canvas.RemovedUsageAt | build_final_layout.py:113-116 | each covered cell's count goes down by one, a count of 1 disappears, and other counts stay |
| Canvas.RemovedBoardAt | build_final_layout.py:115-117 | `remove_word` clears exactly the covered cells whose count was 1 and keeps every other letter |
| Canvas.PlacedBoardAt | build_puzzle_final.py:118-120 | `place` fills the empty covered cells with the word's letters and keeps every letter already on the board |
| Canvas.NewCellsAt | build_puzzle_final.py:118-119 | the `changed` list holds each covered cell that was empty, once |
| Canvas.LegalAgrees | build_puzzle_final.py:64-66 | a placement `can_place` accepts agrees with every letter already on the board |
| Canvas.AddKeepsCounted | build_final_layout.py:120-123 | `add_word` keeps the invariant that the board's cells are exactly the cells with a positive usage count |
| Canvas.PlaceKeepsCounted | build_puzzle_final.py:113-122 | `place` keeps the invariant that the board's cells are exactly the cells with a positive usage count |
| Canvas.RemoveKeepsCounted | build_final_layout.py:112-117 | `remove_word` of a word whose cells are all in use keeps the same invariant |
| Canvas.AddedUsageCovers | build_final_layout.py:123 | after `add_word` every covered cell has a positive count, so the same word can be removed |
| Canvas.RemovedAddedUsage | build_final_layout.py:112-123 | removing a word right after adding it gives back the usage counts |
| Canvas.AddRemoveRoundTrip | build_final_layout.py:112-123 | `remove_word` after `add_word` gives back the usage counts, and gives back the board exactly when the word agreed with every letter already there |
| Canvas.PlaceUnplaceRoundTrip | rebuild_custom_puzzle.py:120-140 | `unplace` with the `changed` list of `place` gives back board and usage exactly, and that list meets `unplace`'s needs |
| Canvas.Sparse.constructor | build_final_layout.py:158-159 | the canvas starts with an empty board and no counts |
| Canvas.Sparse.PlaceWord | build_final_layout.py:107-109 | `place_word` writes every letter of the placement and leaves the counts alone |
| Canvas.Sparse.AddWord | build_final_layout.py:120-123 | `add_word` writes every letter and counts one more use of each cell, keeping the board's cells exactly the cells with a positive count |
| Canvas.Sparse.RemoveWord | build_final_layout.py:112-117 | `remove_word` counts one less use of each cell and clears a cell together with its last use, keeping the board's cells exactly the cells with a positive count |
| Canvas.Sparse.Place | build_puzzle_final.py:113-122 | `place` writes the letters into the empty cells only, counts one more use of every cell, returns exactly the cells that were empty, and keeps the board's cells exactly the cells with a positive count |
| Canvas.Sparse.Unplace | build_puzzle_final.py:125-133 | `unplace` counts one less use of every cell, dropping counts that reach 0, and clears exactly the cells in `changed` |
| Candidates.Score | build_puzzle_final.py:98-99 | a positive `can_place` answer means the position is legal |
| Candidates.FirstColumn | build_final_layout.py:129 | the first word starts centred on the middle column, clamped to column 1 or more in the first placer |
| Candidates.Insert | build_puzzle_final.py:109 | inserting one candidate keeps the list sorted by descending crossing count and adds exactly that candidate |
| Candidates.SortDesc | build_puzzle_final.py:109 | the sorted candidates are a permutation of the input in descending crossing count |
| Candidates.PermutedNoDup | build_puzzle_final.py:108 | shuffling keeps the candidates and their distinctness |
| Candidates.PermutedSound | build_puzzle_final.py:108-109 | shuffling or sorting sound candidates keeps them sound |
| Candidates.SoundDistinct | build_final_layout.py:135-147 | sound candidates without repeats have distinct start positions, since a position determines its count |
| Candidates.TryStart | build_puzzle_final.py:95-100 | trying a position not seen before keeps the candidates sound, distinct and complete for the positions tried, and marks it seen |
| Candidates.TryCell | build_puzzle_final.py:95-106 | trying both positions through a board cell at letter i does the same for both |
| Candidates.ReachedByCrossing | build_puzzle_final.py:93-94 | every crossing position is reached by the loop, through its crossing cell and letter |
| Candidates.GenCandidates | build_puzzle_final.py:82-110 | on an empty canvas the single centred across start with count 0; otherwise every legal position with at least one crossing, exactly once, with its crossing count, sorted by descending count |
| Crop.Bounding | build_puzzle_final.py:136-141 | `bounding` gives the smallest box holding every occupied cell: each occupied cell lies inside, and each side touches one |
| Crop.CropGrid | build_puzzle_final.py:200-203 | the cropped grid is h x w, with the board's letter at each shifted occupied cell and '#' everywhere else |
| Crop.CroppedBlock | build_puzzle_final.py:200-202 | a '#' in the cropped grid is exactly a cell off the board, since no placed letter is '#' |
| Crop.Shift | build_puzzle_final.py:207 | shifting keeps clue, answer and direction and moves every cell of the placement by (-r0, -c0) |
| Crop.Normalise | build_puzzle_final.py:205-207 | `norm` holds every placement shifted by the box corner, in order |
| Crop.ShiftedShown | build_puzzle_final.py:200-207 | a placement on the board reads off the cropped grid, letter by letter, at its shifted cells, all inside the grid |
| Order.LexTotal | build_final_layout.py:156 | Python's string comparison is total |
| Order.LexAntisymmetric | build_final_layout.py:156 | two strings each at most the other are equal |
| Order.LexTransitive | build_final_layout.py:156 | Python's string comparison is transitive |
| Order.Insert | build_final_layout.py:156 | inserting one entry into a list sorted by `(-len(answer), answer)` keeps it sorted and adds exactly that entry |
| Order.ByLength | build_final_layout.py:156 | the sort gives a permutation of the word list ordered longest first, then alphabetically |
| Order.LongestFirst | build_final_layout.py:155-156 | the first word of the sorted list is a longest answer |
| Layouts.AddedLayout | build_final_layout.py:171-172 | `add_word` of an agreeing placement keeps the board exactly the letters of the placements, now with it appended |
| Layouts.PlacedLayout | build_puzzle_final.py:165-166 | `place` of an agreeing placement keeps the board exactly the letters of the placements, now with it appended |
| Layouts.LayoutExtended | build_final_layout.py:120-122 | any board made of the old board plus an agreeing word's letters on its cells is the layout with that placement added |
| Layouts.KeptOnBoard | build_final_layout.py:171 | letters already placed stay on the board when an agreeing word is written |
| Layouts.CrossingPlacement | build_final_layout.py:167-168 | a placement with a positive crossing count shares a cell with one of the placements already on the board |
| Layouts.ChainedSnoc | build_final_layout.py:167-172 | appending a placement that crosses an earlier one keeps every later placement crossing an earlier one |
| Layouts.CandidateAgrees | build_final_layout.py:166-171 | every generated candidate agrees with the letters on the board |
| Layouts.CandidateCrosses | build_puzzle_final.py:163-166 | a generated candidate agrees with the board, and one with a positive count is legal with exactly that many crossings |
| Layouts.ShiftedLabelled | build_final_layout.py:197-199 | shifting the placements keeps their clues and answers in order |
| Layouts.LabelledSnoc | build_final_layout.py:170-172 | appending the placement of words[i] keeps the placements carrying the word list in order |
| Layouts.PlacedWordsSnoc | build_puzzle_final.py:191-192 | appending a placement adds exactly its answer to the placed answers |
| Layouts.NonEmptyLayout | build_final_layout.py:184-187 | a finished layout with a non-empty first answer has an occupied cell, so the crop bounds exist |
| Layouts.ShiftedFootprint | build_final_layout.py:196-199 | a cell is covered by the shifted placements exactly when its unshifted cell is covered by the placements |
| Layouts.CropShows | build_final_layout.py:192-199 | the cropped grid shows every shifted placement letter by letter |
| Layouts.CropBlocks | build_final_layout.py:192-194 | every cell of the cropped grid not covered by a shifted placement is '#' |
| Layouts.CropTight | build_final_layout.py:184-190 | the first and last row and column of the cropped grid each hold a placed cell |
| Layouts.CroppedTight | build_final_layout.py:184-194 | the cropped grid is a non-empty rectangle whose four edges each hold a cell of a shifted placement |
| Layouts.CropLayout | build_final_layout.py:183-201 | cropping a layout to its bounding box and shifting the placements gives a grid showing every placement, '#' elsewhere, and no larger than needed |
| Layouts.ShiftedChained | build_final_layout.py:196-199 | shifting keeps every later placement crossing an earlier one |
| Freeform.WithCrossings | build_final_layout.py:167-168 | the filter keeps exactly the candidates with a positive crossing count |
| Freeform.PlaceFrom | build_final_layout.py:162-177 | `bt(i)` leaves the canvas as it found it when it fails; when it succeeds the placements extend the given ones, carry the whole word list in order, are exactly the board's letters, and each after the first crosses an earlier one |
| Freeform.Extend | build_final_layout.py:169-176 | one candidate of `bt(i)`: on failure `remove_word` gives back the canvas exactly; on success the same as `bt(i)` |
| Freeform.Build | build_final_layout.py:153-201 | a built result is the crop of a chained layout carrying the word list longest first |
| Freeform.Accept | build_final_layout.py:242-258 | a result is kept exactly when it fits 21 x 21, every theme answer is an entry and every entry is a placed answer; its score is h * w |
| Grow.PlaceThemes | build_puzzle_final.py:159-171 | `bt(i)` of the theme leaves the canvas as it found it when it fails; when it succeeds the placements extend the given ones, carry the sorted theme, are exactly the board's letters, and each crosses an earlier one |
| Grow.ThemeStep | build_puzzle_final.py:164-170 | one candidate of `bt(i)`: on failure `unplace` gives back the canvas exactly; on success the same as `bt(i)` |
| Grow.Retract | build_puzzle_final.py:169-170 | `unplace` with the cells of the preceding `place` restores board and usage |
| Grow.PlacedTheme | build_puzzle_final.py:165-166 | after `place` of a crossing theme word the canvas is still counted, the board is the layout with it added, chained and labelled |
| Grow.AddFiller | build_puzzle_final.py:182-193 | one turn of the filler loop: an answer already used is skipped; otherwise the filler is placed exactly when some position crosses the board, at a legal position with the most crossings, and `place` writes it there; a skipped filler leaves board and usage unchanged |
| Grow.AddFillers | build_puzzle_final.py:176-193 | the filler pass, filler by filler from board to board: each filler whose answer is not yet used and that crosses the board somewhere is appended at a legal position with the most crossings and written on the board; each other filler leaves the board as it is; the result is the given placements followed by the placed fillers, distinct, each crossing an earlier word, and the board is exactly the placements |
| Grow.FillerTurnKept | build_puzzle_final.py:181-193 | one turn of the filler loop keeps the layout, the chain, the distinct-fillers invariant and the used answers, and extends the record of turns by one |
| Grow.TurnsPlaced | build_puzzle_final.py:191 | a placed filler extends the record of turns and joins the placements in order |
| Grow.FillerSkippedTurn | build_puzzle_final.py:182-189 | a skipped filler keeps board and placements, and extends the record of turns |
| Grow.TurnsSnoc | build_puzzle_final.py:181-193 | the record of turns extends by one turn without changing the earlier ones |
| Grow.FillerAdded | build_puzzle_final.py:190-193 | placing a legal crossing filler keeps the layout, the chain and the distinct-fillers invariant, and adds its answer to the used answers |
| Puzzle.Build | build_puzzle_final.py:144-209 | a built result is the crop of the placements within the size limit, with the sorted theme first, then `added` distinct fillers, each word after the first crossing an earlier one |
| Puzzle.FirstPlaced | build_puzzle_final.py:152-157 | after `place` of the first theme answer on the empty canvas the canvas meets what `bt(1)` needs |
| Puzzle.ShiftedParts | build_puzzle_final.py:205-207 | shifting keeps the theme prefix and the fillers after it |
| Puzzle.CellWordsHas | build_puzzle_final.py:265-269 | an answer is listed in `cell_map` at a cell exactly when a placement with that answer covers the cell |
| Puzzle.CellWordsTwo | build_puzzle_final.py:270-271 | a cell lists more than one answer exactly when two placements cover it |
| Puzzle.SharedCrosses | build_puzzle_final.py:261-275 | an answer is listed at a shared cell exactly when one of its placements shares a cell with another placement |
| Puzzle.CellMap | build_puzzle_final.py:264-269 | `cell_map` has a key exactly for the covered cells, each listing the answers covering it in placement order |
| Puzzle.InterCounts | build_puzzle_final.py:270-273 | `inter_count` has a positive count exactly for the answers listed at a cell with two or more answers |
| Puzzle.ThemesCross | build_puzzle_final.py:274-275 | the check passes exactly when every theme answer shares a cell with another placement |
| Puzzle.Accept | build_puzzle_final.py:249-278 | a result is kept exactly when every theme answer is an entry, every entry is a placed answer and every theme answer crosses another word; its score is `(-added, h * w, abs(h - w))` |
| Puzzle.Choose | build_puzzle_final.py:243-280 | none is kept exactly when no seed passes; otherwise the kept result is the first with the smallest score over all seeds |
| Checks.GridWordsAt | rebuild_custom_puzzle.py:242-243 | an answer is an entry of the grid exactly when some maximal run of white cells, across or down, spells it |
| Checks.EntriesCheck | build_puzzle_final.py:250-259 | the entries are those the numbering finds, and the check passes exactly when the theme answers are entries and the entries are placed answers |
| Rebuild.CountFillers | rebuild_custom_puzzle.py:256 | `filler_count` is the number of placements whose answer is an entry and not a theme answer |
| Rebuild.FillersAfterTheme | rebuild_custom_puzzle.py:256 | no theme placement is counted, so `filler_count` is at most the number of placed fillers |
| Rebuild.Attempt | rebuild_custom_puzzle.py:180-258 | a passing attempt is the crop of a chained layout within 25 x 25 with the sorted theme first; theme answers are entries, entries are placed answers with clues; its score is `(filler_count, h * w, abs(h - w))` |
| Rebuild.Choose | rebuild_custom_puzzle.py:261-271 | none is kept exactly when no seed passes; otherwise the kept result is the first lowest among the seeds tried; the loop stopped early only on a result with at most four fillers, and every earlier seed that became the choice had more than four, so the scan ran exactly up to the first such choice |

## Left out

- Reading the system dictionary file: `Lexicon.LoadWords` takes the dictionary's lines as a parameter.
- Randomness. `random.random()` block draws are a `coin` parameter, and the floating-point block probability is not modelled. `random.shuffle`, the seeds and the `random.random()` sort key are permutation parameters or a given order.
- The float-stride down-sampling of length buckets over 12000 words in `generate_puzzle2.py` is not modelled; the buckets keep every admitted word.
- The candidate cache of the 15 x 15 fill search is not modelled. Candidates are always computed afresh.
- Fill.Solve: promises that no word is used twice, which holds for the 13 x 13 `solve_fill` but not for the 15 x 15 `solve`. That `solve` caches candidate lists by slot and slot letters, without the used words (generate_puzzle2.py:221-223), and filters used words only when it fills the cache (generate_puzzle2.py:248). Two slots of one length that do not cross can both receive a word X: the first slot's list is cached while it still holds X, the second slot is assigned X, and a later cache hit for the first slot still offers X. The model, which has no cache, cannot do this.
- The vowel-count ordering of candidates is treated as an arbitrary reordering, a permutation parameter.
- The attempt loops of `main` in `generate_puzzle.py`, `generate_puzzle2.py` and `build_final_layout.py` are not modelled. These include the weirdness score, the early stop and the best-so-far choice. Only one pass of the last of them is modelled (`Freeform.Accept`). The best-so-far loops of the other two placers are modelled (`Puzzle.Choose`, `Rebuild.Choose`).
- All printing and output formatting.
- In `src/app.js`, the DOM, rendering, the keyboard, event wiring, the timer, the confetti animation and `finalizeIfSolved` are not modelled.
- `window.confirm`: `Solver.Game.Reveal` models the handler after the player confirmed.
- `handleLetter`, `handleBackspace`, `toggleDirection`, `toggleClueDirection` and `findNearestAttachedClueStart` are not modelled; they are key and click handlers around the modelled moves.
- `puzzle.js` is not part of this model. The solution rows and the clue maps are constructor parameters.
- Solver.Game.Move: the step is restricted to 1 or -1, the only steps the key bindings pass.
- Grids.ScoreEntries: counts in half-points (6, 1 and 10), so the 0.5 penalty stays an integer.
- Lexicon.Admit: `isalpha() and lower() == w` is taken over ASCII, so a word with a non-ASCII lower-case letter, which Python would admit, is rejected.
- Canvas.Sparse.RemoveWord: requires a usage count on every covered cell. The source raises `KeyError` otherwise, and its only caller removes a word it has just added.
- Rebuild.Attempt: requires non-empty theme answers, as `Puzzle.Build` and `Freeform.Build` do. The source raises on `bounding` of an empty board.
- Fill.Solve: does not state that None means no fill exists. The candidate cap makes the search incomplete, and the source promises nothing there.
