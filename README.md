# jfst transducers in Dafny

A Dafny model of the finite-state transducer core of jfst: the symbol
tables, the packed transition word, the editable and the frozen automata,
and the recursive string search that applies an automaton to an input or
completes a prefix. Both generations of the library are modelled.

- The live generation lives in `symbol/Alphabet`, `transduce/compact/*`,
  `transduce/ApplicableTransducer` and `io/FstProducer`. It interns
  symbols to dense ids with 0, 1 and 2 reserved. Transitions are packed
  into one Java long each. `MutableCompactTransducer` keeps sorted
  per-state word lists and has epsilon removal and determinization.
  `CompactTransducer` freezes the automaton into one flat array of sorted
  spans.
- The legacy generation lives in `alphabet/*`, `fst/*` and
  `io/FSTProducer`. It uses `CharSymbol`/`MulticharSymbol` objects kept in
  a sorted list. `MutableFSTOld` keeps parallel arc lists.
  `CompactFST`/`CompactFST2` are frozen automata, and `ApplicableFST`
  holds the legacy search.

Code that changes state in place is modelled in that form:
- the live `Alphabet`, `MutableCompactTransducer`, `CompactTransducer`
  and its iterators;
- the legacy `Alphabet`, `MutableFSTOld` with its `MutableState`s, and
  the `CompactFST` iterators.

These are classes with `modifies` frames and loops with invariants. Each
is proved against a value-level function, and the properties are proved
about those functions as lemmas. The searches and the symbol operations
are pure in the source, and are functions here: a search returns a
`set<string>`.

Files:

| file | module | models |
|---|---|---|
| java_words.dfy | JavaWords | Java long/int arithmetic: shifts, masks, casts, Long.compare |
| packing.dfy | Packing, CompactTransitions | the packed transition word, and the live CompactTransition object |
| jstrings.dfy | JStrings, Options | String.compareTo, startsWith, sorting of string lists |
| collections.dfy | Collections | Collections.binarySearch and sort as the automata use them |
| symbol_table.dfy | SymbolTable | symbol/Alphabet |
| mutable_transducer.dfy | MutableCompact | MutableCompactTransducer |
| epsilon_removal.dfy | EpsilonRemoval | the value view of removeEpsilons |
| determinize.dfy | Determinization | the value view of determinize |
| iterations.dfy | Iterations | what the live iterators report |
| compact_transducer.dfy | Compact | CompactTransducer |
| search.dfy | Search | ApplicableTransducer |
| producers.dfy | FstProducers, LegacyProducers | io/FstProducer, io/FSTProducer |
| legacy_symbols.dfy | LegacySymbols | CharSymbol, MulticharSymbol |
| legacy_alphabet.dfy | LegacyAlphabet | alphabet/Alphabet |
| legacy_transitions.dfy | LegacyTransitions | fst/CompactTransition, fst/Transition |
| legacy_search.dfy | LegacySearch | ApplicableFST, and CompactFST's own apply/prefixSearch |
| legacy_mutable.dfy | LegacyMutable | the value view of MutableFSTOld's arc lists and search |
| legacy_mutable_fst.dfy | LegacyMutableFst | MutableFSTOld, MutableState, the state iterator |
| legacy_iterations.dfy | LegacyIterations | what the legacy state iterators report |
| legacy_compact.dfy | LegacyCompact | CompactFST and CompactFST2 |

Source paths in the table below are relative to the repository root.

## Model

| member | source | states |
|---|---|---|
| Packing.FieldsDetermine | src/main/java/de/tuebingen/sfs/jfst/transduce/compact/CompactTransition.java:100-102 | a word is determined by its input, output and to-state fields |
| Packing.MaskIn | src/main/java/de/tuebingen/sfs/jfst/transduce/compact/CompactTransition.java:104-106 | masking with GET_IN_SYM keeps the input field and clears the other two |
| Packing.MaskOut | src/main/java/de/tuebingen/sfs/jfst/transduce/compact/CompactTransition.java:108-110 | masking with GET_OUT_SYM keeps the output field alone |
| Packing.MaskTo | src/main/java/de/tuebingen/sfs/jfst/transduce/compact/CompactTransition.java:112-114 | masking with GET_TO_STATE keeps the to-state field alone |
| Packing.ClearIn | src/main/java/de/tuebingen/sfs/jfst/transduce/compact/CompactTransition.java:28-30 | and-ing with ~GET_IN_SYM clears the input field and keeps the others |
| Packing.ClearOut | src/main/java/de/tuebingen/sfs/jfst/transduce/compact/CompactTransition.java:36-38 | and-ing with ~GET_OUT_SYM clears the output field and keeps the others |
| Packing.ClearTo | src/main/java/de/tuebingen/sfs/jfst/transduce/compact/CompactTransition.java:54-56 | and-ing with ~GET_TO_STATE clears the to-state field and keeps the others |
| Packing.Decode | src/main/java/de/tuebingen/sfs/jfst/transduce/compact/CompactTransition.java:104-114 | the three getters read the three fields; the input id and the to-state are read as signed values |
| Packing.DecodeIn | src/main/java/de/tuebingen/sfs/jfst/transduce/compact/CompactTransition.java:104-106 | inIdFromTransition is the input field read as a signed 16-bit value |
| Packing.DecodeOut | src/main/java/de/tuebingen/sfs/jfst/transduce/compact/CompactTransition.java:108-110 | outIdFromTransition is the output field, never negative |
| Packing.DecodeTo | src/main/java/de/tuebingen/sfs/jfst/transduce/compact/CompactTransition.java:112-114 | toIdFromTransition is the low 32 bits read as a signed int |
| Packing.InIdIsHighPart | src/main/java/de/tuebingen/sfs/jfst/transduce/compact/CompactTransition.java:104-106 | the input id equals the word shifted right by 48 (floor division by 2^48) |
| Packing.SymbolHalf | src/main/java/de/tuebingen/sfs/jfst/transduce/compact/CompactTransition.java:100-102 | (in << 16) \| out is in * 2^16 + out for ids below 2^16 |
| Packing.MakeWord | src/main/java/de/tuebingen/sfs/jfst/transduce/compact/CompactTransition.java:96-102 | makeTransition lays the three ids side by side for ids in range |
| Packing.UnpackMake | src/main/java/de/tuebingen/sfs/jfst/transduce/compact/CompactTransition.java:96-114 | round trip: the getters give back the arguments of makeTransition when the input id is below 2^15, the output id below 2^16 and the to-state non-negative |
| Packing.MakeWordNegative | src/main/java/de/tuebingen/sfs/jfst/transduce/compact/CompactTransition.java:96-106 | makeTransition with a negative input id from -2^15 on fills the input field with id + 2^16, the same bits a field from 2^15 up holds |
| Packing.UnpackMakeNegative | src/main/java/de/tuebingen/sfs/jfst/transduce/compact/CompactTransition.java:96-114 | round trip for a negative input id from -2^15 on: the getters give back all three arguments |
| Packing.UnpackMakeHighIn | src/main/java/de/tuebingen/sfs/jfst/transduce/compact/CompactTransition.java:96-106 | an input id from 2^15 up comes back negative (inSym - 2^16); the other two ids come back unchanged |
| Packing.SetInWord | src/main/java/de/tuebingen/sfs/jfst/transduce/compact/CompactTransition.java:28-30 | setInSym replaces the input field and keeps the others |
| Packing.SetOutWord | src/main/java/de/tuebingen/sfs/jfst/transduce/compact/CompactTransition.java:36-38 | setOutSym replaces the output field and keeps the others |
| Packing.SetToWord | src/main/java/de/tuebingen/sfs/jfst/transduce/compact/CompactTransition.java:54-56 | setToState replaces the to-state field and keeps the others |
| Packing.SetInSymFrame | src/main/java/de/tuebingen/sfs/jfst/transduce/compact/CompactTransition.java:28-30 | after setInSym the input id is the new one (sign-extended) and the output id and to-state are unchanged |
| Packing.SetOutSymFrame | src/main/java/de/tuebingen/sfs/jfst/transduce/compact/CompactTransition.java:36-38 | after setOutSym the output id is the new one and the input id and to-state are unchanged |
| Packing.SetToStateFrame | src/main/java/de/tuebingen/sfs/jfst/transduce/compact/CompactTransition.java:54-56 | after setToState the to-state is the new one and both symbol ids are unchanged |
| Packing.InvertedWord | src/main/java/de/tuebingen/sfs/jfst/transduce/compact/CompactTransition.java:40-44 | invert swaps the two symbol fields of a word whose input id is non-negative |
| Packing.InvertSwaps | src/main/java/de/tuebingen/sfs/jfst/transduce/compact/CompactTransition.java:40-44 | invert swaps the input and output ids and keeps the to-state; inverting twice restores the word |
| Packing.SymPairValue | src/main/java/de/tuebingen/sfs/jfst/transduce/compact/CompactTransition.java:46-48 | getSymPair is the word shifted right by 32, and equals in * 2^16 + out for input ids below 2^15 |
| Packing.SymPairHigh | src/main/java/de/tuebingen/sfs/jfst/transduce/compact/CompactTransition.java:46-48 | getSymPair is the signed high half of the word |
| Packing.IntMask | src/main/java/de/tuebingen/sfs/jfst/transduce/compact/CompactTransition.java:112-114 | (int) (v & 0xffffffffL) gives back every v in the int range |
| Packing.OrderIsLexicographic | src/main/java/de/tuebingen/sfs/jfst/transduce/compact/CompactTransition.java:96-102 | within the packing bounds the signed order of words is the lexicographic order of (input id, output id, to-state), and equal words have equal ids |
| Packing.TransitionTests | src/main/java/de/tuebingen/sfs/jfst/transduce/compact/CompactTransition.java:116-122 | isIdentityTransition tests the input id only; isEpsilonTransition needs both symbol ids to be the epsilon id |
| Packing.KeyValue | src/main/java/de/tuebingen/sfs/jfst/transduce/compact/MutableCompactTransducer.java:384-385 | the search key (long) ci << 48 of a symbol id below 2^16 is the word with input field ci and nothing else; from 2^15 up it is negative and its input id reads back as ci - 2^16 |
| Packing.KeyBlock | src/main/java/de/tuebingen/sfs/jfst/transduce/compact/MutableCompactTransducer.java:409-413 | for any symbol id ci below 2^16, (t & GET_IN_SYM) == ci << 48 holds exactly for the words whose input field is ci (input id SignedIn(ci)), and those words lie between ci's key and the next key in signed order |
| CompactTransitions.CompactTransition.constructor | src/main/java/de/tuebingen/sfs/jfst/transduce/compact/CompactTransition.java:16-18 | the new transition holds makeTransition of its arguments, and its getters give them back when in range |
| CompactTransitions.CompactTransition.FromWord | src/main/java/de/tuebingen/sfs/jfst/transduce/compact/CompactTransition.java:20-22 | the new transition holds the given word |
| CompactTransitions.CompactTransition.SetInSym | src/main/java/de/tuebingen/sfs/jfst/transduce/compact/CompactTransition.java:28-30 | the new input id is the given one; output id and to-state unchanged |
| CompactTransitions.CompactTransition.SetOutSym | src/main/java/de/tuebingen/sfs/jfst/transduce/compact/CompactTransition.java:36-38 | the new output id is the given one; input id and to-state unchanged |
| CompactTransitions.CompactTransition.SetToState | src/main/java/de/tuebingen/sfs/jfst/transduce/compact/CompactTransition.java:54-56 | the new to-state is the given one; both symbol ids unchanged |
| CompactTransitions.CompactTransition.Invert | src/main/java/de/tuebingen/sfs/jfst/transduce/compact/CompactTransition.java:40-44 | input and output ids are swapped, the to-state kept |
| CompactTransitions.CompactTransition.CompareTo | src/main/java/de/tuebingen/sfs/jfst/transduce/compact/CompactTransition.java:70-77 | Long.compare against another transition's word or a boxed Long, -1 against anything else |
| CompactTransitions.CompactTransition.Equals | src/main/java/de/tuebingen/sfs/jfst/transduce/compact/CompactTransition.java:79-84 | equal exactly to another transition holding the same word; never to a boxed Long |
| MutableCompact.SumSizesFlatten | src/main/java/de/tuebingen/sfs/jfst/transduce/compact/MutableCompactTransducer.java:204-207 | the sum of the state list sizes is the number of words laid end to end |
| MutableCompact.WalkOf | src/main/java/de/tuebingen/sfs/jfst/transduce/compact/MutableCompactTransducer.java:427-505 | the walk an iterator reports: the start state, and per state its flag and the ids of its words in stored order |
| MutableCompact.StateListsIndex | src/main/java/de/tuebingen/sfs/jfst/transduce/compact/MutableCompactTransducer.java:51-62 | state k's list holds exactly the packed words of state k's reported arcs (same multiset, duplicates kept), in ascending order; its flag is state k's |
| MutableCompact.StateListsSorted | src/main/java/de/tuebingen/sfs/jfst/transduce/compact/MutableCompactTransducer.java:60 | every list the iterator constructor builds is sorted |
| MutableCompact.MutableCompactTransducer.constructor | src/main/java/de/tuebingen/sfs/jfst/transduce/compact/MutableCompactTransducer.java:34-39 | a fresh transducer has the reserved alphabet and one non-accepting start state 0 without transitions |
| MutableCompact.MutableCompactTransducer.FromIterator | src/main/java/de/tuebingen/sfs/jfst/transduce/compact/MutableCompactTransducer.java:41-63 | start copied, the iterator's alphabet object taken, per reported state the flag and the sorted packed arcs; the counter stays 0 |
| MutableCompact.MutableCompactTransducer.ReadStates | src/main/java/de/tuebingen/sfs/jfst/transduce/compact/MutableCompactTransducer.java:51-62 | the state loop builds exactly StateLists and StateFlags of the reported states |
| MutableCompact.MutableCompactTransducer.PackState | src/main/java/de/tuebingen/sfs/jfst/transduce/compact/MutableCompactTransducer.java:55-58 | the transition loop packs one word per reported arc, in reporting order |
| MutableCompact.MutableCompactTransducer.SortWords | src/main/java/de/tuebingen/sfs/jfst/transduce/compact/MutableCompactTransducer.java:60 | Collections.sort gives the sorted permutation of the list |
| MutableCompact.MutableCompactTransducer.AddState | src/main/java/de/tuebingen/sfs/jfst/transduce/compact/MutableCompactTransducer.java:69-73 | an empty state with the given flag is appended and the old counter returned; the counter is the new state's id when it counted the states |
| MutableCompact.MutableCompactTransducer.SetAccepting | src/main/java/de/tuebingen/sfs/jfst/transduce/compact/MutableCompactTransducer.java:75-77 | only the state's flag changes |
| MutableCompact.MutableCompactTransducer.AddTransitionWord | src/main/java/de/tuebingen/sfs/jfst/transduce/compact/MutableCompactTransducer.java:84-91 | the word is inserted at its binary-search position unless already present; the list stays strictly ascending |
| MutableCompact.MutableCompactTransducer.AddTransition | src/main/java/de/tuebingen/sfs/jfst/transduce/compact/MutableCompactTransducer.java:79-82 | both strings are interned (input first), then the packed word is added to the state |
| MutableCompact.MutableCompactTransducer.AddTransitions | src/main/java/de/tuebingen/sfs/jfst/transduce/compact/MutableCompactTransducer.java:93-96 | each word is added in turn |
| MutableCompact.MutableCompactTransducer.NOfTransitions | src/main/java/de/tuebingen/sfs/jfst/transduce/compact/MutableCompactTransducer.java:204-207 | nOfTransitions is the number of stored words |
| MutableCompact.MutableCompactTransducer.Walk | src/main/java/de/tuebingen/sfs/jfst/transduce/compact/MutableCompactTransducer.java:437-505 | the state iterator reports the start state and every state in id order with its flag and its words' ids in stored order |
| MutableCompact.MutableCompactTransducer.TransitionsFor | src/main/java/de/tuebingen/sfs/jfst/transduce/compact/MutableCompactTransducer.java:381-424 | for an alphabet of up to 2^16 symbols, the iterator for a symbol yields the state's words whose input field is its id, in stored order, with the symbol as input and as output of an identity word; an unknown symbol yields nothing; only the reported words need output ids in the table |
| MutableCompact.MutableCompactTransducer.ReportRun | src/main/java/de/tuebingen/sfs/jfst/transduce/compact/MutableCompactTransducer.java:383-413 | starting at the search position and running while the masked input is the key reports exactly the words whose input field is the key's id |
| MutableCompact.MutableCompactTransducer.FirstAtLeast | src/main/java/de/tuebingen/sfs/jfst/transduce/compact/MutableCompactTransducer.java:387-393 | binarySearch followed by the walk back lands on the first word not below the key |
| MutableCompact.MutableCompactTransducer.RunEnd | src/main/java/de/tuebingen/sfs/jfst/transduce/compact/MutableCompactTransducer.java:409-413 | hasNext stops at the first word past the run of words whose masked input is the key |
| MutableCompact.MutableCompactTransducer.ReportWords | src/main/java/de/tuebingen/sfs/jfst/transduce/compact/MutableCompactTransducer.java:415-424 | next() yields one Transition per word, in order, with the spellings the table gives |
| MutableCompact.MutableCompactTransducer.AllTransitions | src/main/java/de/tuebingen/sfs/jfst/transduce/compact/MutableCompactTransducer.java:402-424 | the iterator over a whole state yields every word in stored order, input spelled from its id, identity output as "" |
| MutableCompact.MutableCompactTransducer.RemoveEpsilons | src/main/java/de/tuebingen/sfs/jfst/transduce/compact/MutableCompactTransducer.java:219-227 | afterwards no epsilon:epsilon word is left; each state holds its own other words and those of every state it reached by epsilon:epsilon words, and accepts iff it or one of those does |
| MutableCompact.DuplicateEpsilonEscapesScan | src/main/java/de/tuebingen/sfs/jfst/transduce/compact/MutableCompactTransducer.java:232-247 | on the sorted list [ε:ε→0, ε:ε→0, ε:ε→0], which the iterator constructor can build, the binary search for the epsilon key lands at index 1, past the epsilon:epsilon word at index 0, which the forward-only scan of removeEpsilons does not reach |
| MutableCompact.MutableCompactTransducer.RemoveEpsilonsFrom | src/main/java/de/tuebingen/sfs/jfst/transduce/compact/MutableCompactTransducer.java:229-257 | removeEpsilons(int) processes the state, returns states reachable from it, and leaves unprocessed states untouched |
| MutableCompact.MutableCompactTransducer.DeleteEpsilonWords | src/main/java/de/tuebingen/sfs/jfst/transduce/compact/MutableCompactTransducer.java:230-249 | the scan deletes every epsilon:epsilon word of the state after processing its target, and finds every original target |
| MutableCompact.MutableCompactTransducer.ScanWord | src/main/java/de/tuebingen/sfs/jfst/transduce/compact/MutableCompactTransducer.java:235-248 | one round drops an epsilon:epsilon word, steps over another epsilon-input word, or stops past the epsilon-input block |
| MutableCompact.MutableCompactTransducer.DropEpsilonWord | src/main/java/de/tuebingen/sfs/jfst/transduce/compact/MutableCompactTransducer.java:238-242 | the target is processed recursively, then the word is removed: the list shrinks by one |
| MutableCompact.MutableCompactTransducer.CopyReachables | src/main/java/de/tuebingen/sfs/jfst/transduce/compact/MutableCompactTransducer.java:250-255 | each state found gives its flag and its words to the state; other states are untouched |
| MutableCompact.MutableCompactTransducer.CopyFrom | src/main/java/de/tuebingen/sfs/jfst/transduce/compact/MutableCompactTransducer.java:250-254 | the state keeps its words and flag and takes those of r |
| MutableCompact.MutableCompactTransducer.Determinize | src/main/java/de/tuebingen/sfs/jfst/transduce/compact/MutableCompactTransducer.java:259-311 | epsilon removal first; then, when the rebuild completes, the outcome is the subset construction from {start} (see Determinization.Step and Determinization.Deterministic) with start 0; the rebuild stops short only once the lists hold MAX_STATES (2^31 - 1) states, the most Java's int ids can number |
| MutableCompact.MutableCompactTransducer.Rebuild | src/main/java/de/tuebingen/sfs/jfst/transduce/compact/MutableCompactTransducer.java:263-311 | the lists are reset, {start} becomes state 0, and sets are processed first in, first out until the queue is empty, in which case the outcome is the subset construction; it stops early only when a new state is needed while MAX_STATES states exist |
| MutableCompact.MutableCompactTransducer.ProcessSet | src/main/java/de/tuebingen/sfs/jfst/transduce/compact/MutableCompactTransducer.java:279-310 | one queue head gets its flag and its words; sets met for the first time are appended and queued; it reports full only when the lists already hold MAX_STATES states |
| MutableCompact.MutableCompactTransducer.CollectSet | src/main/java/de/tuebingen/sfs/jfst/transduce/compact/MutableCompactTransducer.java:285-296 | the set accepts iff one of its members does, and its words are grouped by input/output pair |
| MutableCompact.MutableCompactTransducer.CollectWords | src/main/java/de/tuebingen/sfs/jfst/transduce/compact/MutableCompactTransducer.java:289-294 | computeIfAbsent adds each word's to-state under its pair |
| MutableCompact.MutableCompactTransducer.EmitSet | src/main/java/de/tuebingen/sfs/jfst/transduce/compact/MutableCompactTransducer.java:299-309 | every pair in ascending order goes to the state of its target set, new sets getting new queued states; full only when a new state is needed while MAX_STATES states exist |
| MutableCompact.MutableCompactTransducer.EmitKey | src/main/java/de/tuebingen/sfs/jfst/transduce/compact/MutableCompactTransducer.java:300-308 | one pair: a known set's state, or a new state added to the map and the queue, then one word key \| i; full only when a new state is needed and MAX_STATES states exist |
| EpsilonRemoval.ReachTransitive | src/main/java/de/tuebingen/sfs/jfst/transduce/compact/MutableCompactTransducer.java:240 | what the recursion finds from a found state is found from the first state |
| EpsilonRemoval.BelowEpsilonBlock | src/main/java/de/tuebingen/sfs/jfst/transduce/compact/MutableCompactTransducer.java:232-234 | a negative word is not epsilon:epsilon, so the search may start at the epsilon key |
| EpsilonRemoval.PastEpsilonBlock | src/main/java/de/tuebingen/sfs/jfst/transduce/compact/MutableCompactTransducer.java:246-247 | once a word past the epsilon-input block is seen, no later word is epsilon:epsilon, so the loop may break |
| EpsilonRemoval.AllProcessed | src/main/java/de/tuebingen/sfs/jfst/transduce/compact/MutableCompactTransducer.java:250-254 | a processed state holds the words and acceptance of every state it reaches |
| EpsilonRemoval.RemovalComplete | src/main/java/de/tuebingen/sfs/jfst/transduce/compact/MutableCompactTransducer.java:219-227 | with every state processed the epsilon removal has its outcome (epsilon-free, words and flags of reached states) |
| Determinization.SymsWord | src/main/java/de/tuebingen/sfs/jfst/transduce/compact/MutableCompactTransducer.java:291 | masking out the to-state gives the word of the same pair with to-state 0 |
| Determinization.TargetWord | src/main/java/de/tuebingen/sfs/jfst/transduce/compact/MutableCompactTransducer.java:307 | key \| i is the word of the key's pair leading to i |
| Determinization.SymsToDetermine | src/main/java/de/tuebingen/sfs/jfst/transduce/compact/MutableCompactTransducer.java:291-307 | a word is fixed by its pair and a non-negative to-state |
| Determinization.GroupedCleared | src/main/java/de/tuebingen/sfs/jfst/transduce/compact/MutableCompactTransducer.java:285-293 | every key of the TreeMap has the to-state field clear |
| Determinization.Deterministic | src/main/java/de/tuebingen/sfs/jfst/transduce/compact/MutableCompactTransducer.java:299-308 | each state of the outcome has at most one word per input/output pair |
| Determinization.Step | src/main/java/de/tuebingen/sfs/jfst/transduce/compact/MutableCompactTransducer.java:279-310 | from a state, a pair leads to the state whose set holds exactly the old states reached by that pair from its set; a pair none of them reads has no word |
| MutableCompact.StateLists | src/main/java/de/tuebingen/sfs/jfst/transduce/compact/MutableCompactTransducer.java:51-61 | the iterator constructor builds one list per reported state |
| MutableCompact.StateFlags | src/main/java/de/tuebingen/sfs/jfst/transduce/compact/MutableCompactTransducer.java:51-61 | the iterator constructor builds one flag per reported state |
| MutableCompact.AddAfterCopy | src/main/java/de/tuebingen/sfs/jfst/transduce/compact/MutableCompactTransducer.java:31-73 | after a copy of a non-empty automaton by the iterator constructor, the counter is still 0, so addState() returns 0 although the state it appends is the last one; only the no-argument constructor and determinize, which resets the counter first, call addState |
| Compact.OffsetsIndex | src/main/java/de/tuebingen/sfs/jfst/transduce/compact/CompactTransducer.java:54-66 | the offset the constructor records for state k is the number of words of the states before it |
| Compact.Spans | src/main/java/de/tuebingen/sfs/jfst/transduce/compact/CompactTransducer.java:202-222 | span k is the slice of the word array from state k's offset to the next offset, or to the end for the last state |
| Compact.SpanWords | src/main/java/de/tuebingen/sfs/jfst/transduce/compact/CompactTransducer.java:202-222 | every word of a span is a word of the array |
| Compact.TotalArcsCount | src/main/java/de/tuebingen/sfs/jfst/transduce/compact/CompactTransducer.java:48-50 | the declared transition count, when it is the reported one, is the size of the laid-out lists |
| Compact.LayoutSpans | src/main/java/de/tuebingen/sfs/jfst/transduce/compact/CompactTransducer.java:54-66 | the recorded offsets cut the filled array back into exactly the per-state lists: span k is list k, and the offsets ascend within the array |
| Compact.LaidSpan | src/main/java/de/tuebingen/sfs/jfst/transduce/compact/CompactTransducer.java:54-66 | once the offsets are known to be laid out, span k is list k |
| Compact.LayoutLaid | src/main/java/de/tuebingen/sfs/jfst/transduce/compact/CompactTransducer.java:54-66 | the recorded offsets ascend and stay within the array |
| Compact.WalkRoundTrip | src/main/java/de/tuebingen/sfs/jfst/transduce/compact/MutableCompactTransducer.java:41-63 | round trip: sorted lists of words with non-negative to-states (any input field), reported as a walk and read by the MutableCompactTransducer iterator constructor, give back the same lists and flags |
| Compact.RangeBinarySearch | src/main/java/de/tuebingen/sfs/jfst/transduce/compact/CompactTransducer.java:203 | Arrays.binarySearch(a, from, to, key) on the range: a hit is a position in range holding the key; a miss encodes an insertion point in [from, to] |
| Compact.RunBefore | src/main/java/de/tuebingen/sfs/jfst/transduce/compact/CompactTransducer.java:207-208 | the walk-back passes exactly the copies of the key right before the hit |
| Compact.RunBeforeExact | src/main/java/de/tuebingen/sfs/jfst/transduce/compact/CompactTransducer.java:207-208 | a run of key copies with no copy before it is walked back over entirely |
| Compact.LookupRun | src/main/java/de/tuebingen/sfs/jfst/transduce/compact/CompactTransducer.java:197-228 | what the lookup walks over from its start to where hasNext stops: the copies of the key spilled from earlier spans, then the span's words whose input field is ci |
| Compact.LookupReports | src/main/java/de/tuebingen/sfs/jfst/transduce/compact/CompactTransducer.java:197-237 | the reports of that run; as a set exactly the reports of the span's words whose input field is ci |
| Compact.NoSpill | src/main/java/de/tuebingen/sfs/jfst/transduce/compact/CompactTransducer.java:207-208 | a span the word before which is not the key spills nothing |
| Compact.MissSplit | src/main/java/de/tuebingen/sfs/jfst/transduce/compact/CompactTransducer.java:203-205 | a miss of the range search names the point where smaller words end |
| Compact.HitSplit | src/main/java/de/tuebingen/sfs/jfst/transduce/compact/CompactTransducer.java:206-209 | after a hit and the walk-back, the lookup starts at the split, or before the span when the span starts with the key |
| Compact.SpillHarmless | src/main/java/de/tuebingen/sfs/jfst/transduce/compact/CompactTransducer.java:207-237 | the spilled copies only repeat the span's first word: as a set the lookup reports exactly the span's words with input id ci |
| Compact.SpillWords | src/main/java/de/tuebingen/sfs/jfst/transduce/compact/CompactTransducer.java:207-227 | the walked-over words are, as a set, the span's words with input id ci, and all are stored words |
| Compact.CompactTransducer.constructor | src/main/java/de/tuebingen/sfs/jfst/transduce/compact/CompactTransducer.java:41-67 | start and alphabet object taken; arrays sized by the declared counts; offsets, flags and words are those of the reported states laid end to end, every span sorted |
| Compact.CompactTransducer.Fill | src/main/java/de/tuebingen/sfs/jfst/transduce/compact/CompactTransducer.java:54-66 | the state loop writes the offsets, flags and sorted packed words of all reported states |
| Compact.CompactTransducer.FillState | src/main/java/de/tuebingen/sfs/jfst/transduce/compact/CompactTransducer.java:58-64 | the inner loop writes one packed word per reported arc from the state's offset on, then sorts that range, leaving the earlier words |
| Compact.CompactTransducer.SortRange | src/main/java/de/tuebingen/sfs/jfst/transduce/compact/CompactTransducer.java:64 | Arrays.sort(a, from, to) replaces the range by its sorted arrangement and keeps the rest |
| Compact.CompactTransducer.TransitionsFor | src/main/java/de/tuebingen/sfs/jfst/transduce/compact/CompactTransducer.java:197-237 | for an alphabet of up to 2^16 symbols, a known symbol's lookup reports the state's words whose input field is its id (preceded by the copies of the key spilled from earlier spans), and as a set exactly those; an unknown symbol reports nothing |
| Compact.CompactTransducer.Lookup | src/main/java/de/tuebingen/sfs/jfst/transduce/compact/CompactTransducer.java:199-237 | the drained iterator for input id ci over one span: reports of the spilled copies and the span's words whose input field is ci, none spilled when the word before the span is not the key |
| Compact.CompactTransducer.SpanStart | src/main/java/de/tuebingen/sfs/jfst/transduce/compact/CompactTransducer.java:203-209 | the lookup's start: every earlier span word below the key and every later one at least the key, or the first of a run of key copies that reaches back past the span |
| Compact.CompactTransducer.WalkBack | src/main/java/de/tuebingen/sfs/jfst/transduce/compact/CompactTransducer.java:207-208 | the walk-back stops at the first copy of a maximal run of key copies ending at the hit |
| Compact.CompactTransducer.AllTransitions | src/main/java/de/tuebingen/sfs/jfst/transduce/compact/CompactTransducer.java:218-237 | the iterator over a whole state yields every word of the span in stored order, input spelled from its id, identity output as "" |
| Compact.CompactTransducer.GetMutableCopy | src/main/java/de/tuebingen/sfs/jfst/transduce/compact/CompactTransducer.java:163-166 | when every stored to-state is a non-negative int, the mutable copy has the same start, flags, per-state lists and alphabet table |
| Compact.CopyArrayTable | src/main/java/de/tuebingen/sfs/jfst/transduce/compact/CompactTransducer.java:253 | new Alphabet(getSymbols()) rebuilds a valid alphabet's table |
| Compact.CompactTransducerStateIterator.constructor | src/main/java/de/tuebingen/sfs/jfst/transduce/compact/CompactTransducer.java:251-258 | the iterator refers to the automaton, holds a fresh copy of its alphabet and starts before the first state |
| Compact.CompactTransducerStateIterator.NextState | src/main/java/de/tuebingen/sfs/jfst/transduce/compact/CompactTransducer.java:286-290 | the next state, its current word one before its offset, its end at the next offset or the array's end |
| Compact.CompactTransducerStateIterator.ReadAll | src/main/java/de/tuebingen/sfs/jfst/transduce/compact/CompactTransducer.java:281-320 | read to the end, the iterator reports every state in id order with its flag and the ids of every word of its span, each exactly once |
| Compact.CompactTransducerStateIterator.ReadArcs | src/main/java/de/tuebingen/sfs/jfst/transduce/compact/CompactTransducer.java:298-320 | for the current state, the ids of each word of its span in stored order |
| Compact.CompactTransducerStateIterator.NextTransition | src/main/java/de/tuebingen/sfs/jfst/transduce/compact/CompactTransducer.java:302-305 | nextTransition advances the current word and nothing else |
| Compact.Offsets | src/main/java/de/tuebingen/sfs/jfst/transduce/compact/CompactTransducer.java:54-56 | one offset per state list laid end to end |
| Compact.Spill | src/main/java/de/tuebingen/sfs/jfst/transduce/compact/CompactTransducer.java:203-208 | the walk-back from the span's start can step over at most the words before it |
| Compact.CompactTransducer.FillStep | src/main/java/de/tuebingen/sfs/jfst/transduce/compact/CompactTransducer.java:54-65 | one round of the state loop appends the state's offset, its flag and its sorted packed words |
| SymbolTable.IndexOf | src/main/java/de/tuebingen/sfs/jfst/symbol/Alphabet.java:117-119 | the id of a string in the id-ordered table, -1 exactly when absent |
| SymbolTable.Decimal | src/main/java/de/tuebingen/sfs/jfst/symbol/Alphabet.java:173 | Integer.toString of a non-negative int is a non-empty digit string |
| SymbolTable.InternListStep | src/main/java/de/tuebingen/sfs/jfst/symbol/Alphabet.java:183-190 | addSymbols(Iterable) interns the k-th name, then the rest |
| SymbolTable.FreshTable | src/main/java/de/tuebingen/sfs/jfst/symbol/Alphabet.java:43-49 | a fresh alphabet holds exactly epsilon, unknown-identity and unknown, with ids 0, 1 and 2 |
| SymbolTable.InternSpec | src/main/java/de/tuebingen/sfs/jfst/symbol/Alphabet.java:142-163 | addSymbol: a present string changes nothing and returns its id; a new one gets the next id; old ids keep their strings |
| SymbolTable.InternIdempotent | src/main/java/de/tuebingen/sfs/jfst/symbol/Alphabet.java:142-163 | addSymbol is idempotent |
| SymbolTable.InternAllSpec | src/main/java/de/tuebingen/sfs/jfst/symbol/Alphabet.java:169-191 | adding a list keeps every old id and ends with every listed string present and nothing else new |
| SymbolTable.ArrayNamesCount | src/main/java/de/tuebingen/sfs/jfst/symbol/Alphabet.java:169-177 | addSymbols(String[]) keeps each non-null entry and names null entries NULL0, NULL1, ... |
| SymbolTable.ListNamesSpec | src/main/java/de/tuebingen/sfs/jfst/symbol/Alphabet.java:183-190 | addSymbols(Iterable) keeps each non-null entry and names every null entry NULL |
| SymbolTable.InternAllFresh | src/main/java/de/tuebingen/sfs/jfst/symbol/Alphabet.java:169-191 | adding new distinct strings appends them in order |
| SymbolTable.InternAllPresent | src/main/java/de/tuebingen/sfs/jfst/symbol/Alphabet.java:169-191 | adding strings already present changes nothing |
| SymbolTable.CopyTable | src/main/java/de/tuebingen/sfs/jfst/symbol/Alphabet.java:54-57 | new Alphabet(a.getSymbols()) rebuilds a's table exactly |
| SymbolTable.PrefixesAtSpec | src/main/java/de/tuebingen/sfs/jfst/symbol/Alphabet.java:125-136 | getPrefixes keeps exactly the non-empty keys occurring in s at start, in key order |
| SymbolTable.PrefixesByLengthAt | src/main/java/de/tuebingen/sfs/jfst/symbol/Alphabet.java:125-136 | the prefixes found at one position are ordered by length |
| SymbolTable.TailStart | src/main/java/de/tuebingen/sfs/jfst/symbol/Alphabet.java:128 | tailMap(c) starts at the first key not below c |
| SymbolTable.InverseExtend | src/main/java/de/tuebingen/sfs/jfst/symbol/Alphabet.java:159-160 | putting the new string under the next id keeps map and list inverse to each other |
| SymbolTable.Alphabet.constructor | src/main/java/de/tuebingen/sfs/jfst/symbol/Alphabet.java:43-49 | the table is the three reserved strings under ids 0, 1, 2 |
| SymbolTable.Alphabet.FromArray | src/main/java/de/tuebingen/sfs/jfst/symbol/Alphabet.java:54-57 | the reserved strings, then the array's strings (nulls named NULLi) interned in order |
| SymbolTable.Alphabet.FromList | src/main/java/de/tuebingen/sfs/jfst/symbol/Alphabet.java:62-65 | the reserved strings, then the list's strings (nulls named NULL) interned in order |
| SymbolTable.Alphabet.DistinctTable | src/main/java/de/tuebingen/sfs/jfst/symbol/Alphabet.java:30-32 | no string has two ids |
| SymbolTable.Alphabet.MapIsIndex | src/main/java/de/tuebingen/sfs/jfst/symbol/Alphabet.java:30-32 | the map holds exactly the table's strings, each under its table id |
| SymbolTable.Alphabet.GetSymbol | src/main/java/de/tuebingen/sfs/jfst/symbol/Alphabet.java:105-110 | the string with that id, null from the size on |
| SymbolTable.Alphabet.GetId | src/main/java/de/tuebingen/sfs/jfst/symbol/Alphabet.java:117-119 | the id of the string, -1 exactly when absent |
| SymbolTable.Alphabet.Size | src/main/java/de/tuebingen/sfs/jfst/symbol/Alphabet.java:205-207 | the number of keys equals the number of ids |
| SymbolTable.Alphabet.GetSymbols | src/main/java/de/tuebingen/sfs/jfst/symbol/Alphabet.java:197-199 | the strings in id order: the string at each index is the one getSymbol gives for that id, and the list holds exactly the strings contains accepts |
| SymbolTable.Alphabet.AddSymbol | src/main/java/de/tuebingen/sfs/jfst/symbol/Alphabet.java:142-163 | interns the string; a new one gets the next id, and a reserved string sets the matching special id; a present one changes nothing |
| SymbolTable.Alphabet.GetIdOrCreate | src/main/java/de/tuebingen/sfs/jfst/symbol/Alphabet.java:121-123 | the same outcome as addSymbol |
| SymbolTable.Alphabet.AddSymbols | src/main/java/de/tuebingen/sfs/jfst/symbol/Alphabet.java:169-177 | the array's names interned in order |
| SymbolTable.Alphabet.AddSymbolList | src/main/java/de/tuebingen/sfs/jfst/symbol/Alphabet.java:183-190 | the list's names interned in order |
| SymbolTable.Alphabet.GetPrefixes | src/main/java/de/tuebingen/sfs/jfst/symbol/Alphabet.java:125-136 | the keys occurring in s at start, in key order |
| SymbolTable.ScanPrefixes | src/main/java/de/tuebingen/sfs/jfst/symbol/Alphabet.java:128-134 | the loop from the tail start keeps the keys occurring at start until a key no longer starts with s[start] |
| SymbolTable.DistinctCard | src/main/java/de/tuebingen/sfs/jfst/symbol/Alphabet.java:205-207 | a table without duplicates has as many keys as ids |
| Search.With | src/main/java/de/tuebingen/sfs/jfst/transduce/ApplicableTransducer.java:32-34 | over a state's transitions as the per-string iterators spell them, selecting by input string keeps exactly the transitions with that input, in order |
| Search.WithSpelledArcs | src/main/java/de/tuebingen/sfs/jfst/transduce/compact/MutableCompactTransducer.java:381-424 | over a state's words spelled as getTransitionIterator(s, k) spells them (input name, output name, the input string again for an identity output), the transitions selected for a symbol's name are exactly the reports of the words whose input id is that symbol's, in order |
| Search.Emit | src/main/java/de/tuebingen/sfs/jfst/transduce/ApplicableTransducer.java:148-150 | an output symbol contributes nothing exactly when it is the epsilon string (which is non-empty), and itself otherwise |
| Search.Prefixes | src/main/java/de/tuebingen/sfs/jfst/symbol/Alphabet.java:125-136 | every symbol found at position i is non-empty and fits in what is left of the input |
| Search.PrefixesSpec | src/main/java/de/tuebingen/sfs/jfst/symbol/Alphabet.java:125-136 | the symbols found at i are exactly the non-empty alphabet symbols occurring in the input at i |
| Search.ApplyTo | src/main/java/de/tuebingen/sfs/jfst/transduce/ApplicableTransducer.java:55-68 | apply of the empty input from an accepting start state yields the empty string |
| Search.ApplyFollowsLiteral | src/main/java/de/tuebingen/sfs/jfst/transduce/ApplicableTransducer.java:106-121 | a transition whose input is an alphabet symbol occurring at i, followed by any string found from its target after that symbol, gives its output (nothing for epsilon) before that string |
| Search.ApplyFollowsEpsilon | src/main/java/de/tuebingen/sfs/jfst/transduce/ApplicableTransducer.java:91-103 | while fewer than maxIns epsilons were taken in a row, an epsilon transition followed by any string found from its target gives its output before that string |
| Search.ApplyFollowsUnknownIdentity | src/main/java/de/tuebingen/sfs/jfst/transduce/ApplicableTransducer.java:124-133 | where getPrefixes finds nothing at i, an unknown-identity transition copies the input character before any string found from its target |
| Search.ApplyOneArc | src/main/java/de/tuebingen/sfs/jfst/transduce/ApplicableTransducer.java:55-121 | a transition from the start state reading the whole input (an alphabet symbol) into an accepting state makes apply yield its output |
| Search.ApplyDefault | src/main/java/de/tuebingen/sfs/jfst/transduce/ApplicableTransducer.java:36-53 | apply(in) finds everything the search with no epsilon insertions finds |
| Search.ApplyMonotone | src/main/java/de/tuebingen/sfs/jfst/transduce/ApplicableTransducer.java:59-146 | a larger insertion bound finds at least the same strings, from any state and position |
| Search.EpsilonsMonotone | src/main/java/de/tuebingen/sfs/jfst/transduce/ApplicableTransducer.java:91-104 | the strings found through epsilon transitions grow with the insertion bound |
| Search.EpsilonStepMonotone | src/main/java/de/tuebingen/sfs/jfst/transduce/ApplicableTransducer.java:91-104 | an epsilon step followed by a string found with the smaller bound is found with the larger bound |
| Search.LiteralsMonotone | src/main/java/de/tuebingen/sfs/jfst/transduce/ApplicableTransducer.java:106-122 | the strings found through the symbols occurring at i grow with the insertion bound |
| Search.LiteralStepMonotone | src/main/java/de/tuebingen/sfs/jfst/transduce/ApplicableTransducer.java:106-122 | a literal step followed by a string found with the smaller bound is found with the larger bound |
| Search.UnknownsMonotone | src/main/java/de/tuebingen/sfs/jfst/transduce/ApplicableTransducer.java:124-142 | the strings found through unknown-identity and unknown transitions grow with the insertion bound |
| Search.PrefixSearchFromZero | src/main/java/de/tuebingen/sfs/jfst/transduce/ApplicableTransducer.java:152-185 | prefixSearch as written, begun at state 0: every string it returns extends the prefix |
| Search.PrefixSearchFromStart | src/main/java/de/tuebingen/sfs/jfst/transduce/ApplicableTransducer.java:152-185 | prefixSearch begun at the start state: every result extends the prefix, and an accepting start state yields the empty prefix itself |
| Search.PrependMatched | src/main/java/de/tuebingen/sfs/jfst/transduce/ApplicableTransducer.java:227-236 | a symbol occurring at i followed by an extension of the rest of the input extends the input left at i |
| Search.PrefixSearchExtends | src/main/java/de/tuebingen/sfs/jfst/transduce/ApplicableTransducer.java:187-271 | every string the private prefixSearch finds from position i extends the input left at i |
| Search.EpsilonsExtend | src/main/java/de/tuebingen/sfs/jfst/transduce/ApplicableTransducer.java:218-224 | strings found through epsilon transitions extend the input left at i |
| Search.LiteralsExtend | src/main/java/de/tuebingen/sfs/jfst/transduce/ApplicableTransducer.java:227-237 | strings found through the symbols occurring at i extend the input left at i |
| Search.LiteralStepExtends | src/main/java/de/tuebingen/sfs/jfst/transduce/ApplicableTransducer.java:227-237 | one literal step followed by a string found after it extends the input left at i |
| Search.UnknownsExtend | src/main/java/de/tuebingen/sfs/jfst/transduce/ApplicableTransducer.java:239-257 | strings found through unknown-identity and unknown transitions extend the input left at i, since both copy the input character |
| Search.PrefixSearchMissesStart | src/main/java/de/tuebingen/sfs/jfst/transduce/ApplicableTransducer.java:183-185 | with start state 1 accepting and state 0 not, prefixSearch("") misses the empty string that the search from the start state finds |
| Iterations.PackArcs | src/main/java/de/tuebingen/sfs/jfst/transduce/compact/MutableCompactTransducer.java:41-63 | each arc a constructor reads from a state iterator is packed, in reading order, into the word with its input, output and to-state ids |
| Iterations.ArcsOf | src/main/java/de/tuebingen/sfs/jfst/transduce/compact/MutableCompactTransducer.java:492-505 | for each stored word the state iterator reports, at the same position, the word's input, output and to-state ids |
| Iterations.RepackWord | src/main/java/de/tuebingen/sfs/jfst/transduce/compact/MutableCompactTransducer.java:492-505 | packing the ids the state iterator reads from a word with a non-negative to-state gives the same word back, input fields from 2^15 up (read back negative) included |
| Iterations.RepackArcs | src/main/java/de/tuebingen/sfs/jfst/transduce/compact/MutableCompactTransducer.java:41-63 | copying a state's transitions through a state iterator reproduces the stored list exactly whenever its to-states are non-negative |
| Iterations.WordsWithInput | src/main/java/de/tuebingen/sfs/jfst/transduce/compact/MutableCompactTransducer.java:381-413 | the transitions the iterator for one input id walks over are stored transitions reading that id, and no more of them than are stored |
| Iterations.WordsWithInputMembers | src/main/java/de/tuebingen/sfs/jfst/transduce/compact/MutableCompactTransducer.java:381-413 | a stored transition is walked over by the iterator for an id exactly when its input id is that id |
| Iterations.WordsWithInputAppend | src/main/java/de/tuebingen/sfs/jfst/transduce/compact/MutableCompactTransducer.java:381-413 | the selection from a concatenation of transition lists is the concatenation of the selections |
| Iterations.WordsWithInputNone | src/main/java/de/tuebingen/sfs/jfst/transduce/compact/MutableCompactTransducer.java:395-399 | a list with no transition reading the id yields nothing |
| Iterations.WordsWithInputAll | src/main/java/de/tuebingen/sfs/jfst/transduce/compact/MutableCompactTransducer.java:409-413 | a list all of whose transitions read the id is walked over whole |
| Iterations.WordsWithInputSplit | src/main/java/de/tuebingen/sfs/jfst/transduce/compact/MutableCompactTransducer.java:381-413 | selecting from a list cut in three pieces selects from each piece in order |
| Iterations.WordsWithInputRun | src/main/java/de/tuebingen/sfs/jfst/transduce/compact/MutableCompactTransducer.java:381-413 | when the transitions reading the id form one contiguous run, the iterator walks over exactly that run |
| Iterations.SliceNone | src/main/java/de/tuebingen/sfs/jfst/transduce/compact/MutableCompactTransducer.java:409-413 | a slice with no transition reading the id contributes nothing to the selection |
| Iterations.SliceAll | src/main/java/de/tuebingen/sfs/jfst/transduce/compact/MutableCompactTransducer.java:409-413 | a slice whose transitions all read the id is selected whole |
| Iterations.SortedRun | src/main/java/de/tuebingen/sfs/jfst/transduce/compact/MutableCompactTransducer.java:381-413 | in a sorted transition list, the transitions whose input field is id start where the binary search for id << 48 lands and continue while the masked input field equals the key, so the iterator reports exactly them |
| Iterations.Report | src/main/java/de/tuebingen/sfs/jfst/transduce/compact/MutableCompactTransducer.java:415-424 | next() reports the word's to-state; its input is the iterator's string, or the spelled input id for the all-transitions iterator; its output repeats that string when the output id is the identity id and is the spelled output id otherwise |
| Iterations.Reports | src/main/java/de/tuebingen/sfs/jfst/transduce/compact/MutableCompactTransducer.java:409-424 | an iterator reports one transition per word it walks over |
| Iterations.ReportsIndex | src/main/java/de/tuebingen/sfs/jfst/transduce/compact/MutableCompactTransducer.java:409-424 | the k-th reported transition is the report of the k-th word walked over |
| Iterations.ReportsSnoc | src/main/java/de/tuebingen/sfs/jfst/transduce/compact/MutableCompactTransducer.java:409-424 | walking one more word adds exactly that word's report at the end |
| Iterations.ReportsMembers | src/main/java/de/tuebingen/sfs/jfst/transduce/compact/MutableCompactTransducer.java:409-424 | the reported transitions are exactly the reports of the words walked over |
| Iterations.SymbolReports | src/main/java/de/tuebingen/sfs/jfst/transduce/compact/MutableCompactTransducer.java:373-424 | the iterator for one input symbol reports, with that symbol as input, exactly the stored transitions reading its id, each with its to-state and output |
| FstProducers.Convert | src/main/java/de/tuebingen/sfs/jfst/io/FstProducer.java:136-146 | convert returns its argument or one of the four internal strings (epsilon, unknown, identity, space) |
| FstProducers.ConvertSpec | src/main/java/de/tuebingen/sfs/jfst/io/FstProducer.java:8-146 | each producer's epsilon, unknown, identity and space spellings become the internal strings, checked in that order; every other string is kept |
| FstProducers.SfstEmptyIsUnknown | src/main/java/de/tuebingen/sfs/jfst/io/FstProducer.java:59-79 | SFST spells both the unknown symbol and the identity as the empty string, and convert maps it to the unknown symbol |
| FstProducers.JfstConvertIsIdentity | src/main/java/de/tuebingen/sfs/jfst/io/FstProducer.java:84-110 | convert of a JFST producer changes no string |
| FstProducers.ConvertIdempotent | src/main/java/de/tuebingen/sfs/jfst/io/FstProducer.java:136-146 | converting twice gives the same as converting once |
| FstProducers.HfstVariants | src/main/java/de/tuebingen/sfs/jfst/io/FstProducer.java:13-54 | the two HFST producers differ in the epsilon spelling only, and convert agrees on every other string |
| LegacyProducers.Convert | src/main/java/de/tuebingen/sfs/jfst/io/FSTProducer.java:94-100 | the legacy convert returns its argument, the internal epsilon string or a space |
| LegacyProducers.LegacyConvertSpec | src/main/java/de/tuebingen/sfs/jfst/io/FSTProducer.java:8-100 | epsilon and space spellings are translated, a string is changed exactly when it is a non-JFST epsilon spelling or a space spelling other than a space, and the identity spelling is kept |
| LegacyProducers.LegacyJfstConvertIsIdentity | src/main/java/de/tuebingen/sfs/jfst/io/FSTProducer.java:53-68 | the legacy convert of a JFST producer changes no string |
| LegacyProducers.LegacyConvertIdempotent | src/main/java/de/tuebingen/sfs/jfst/io/FSTProducer.java:94-100 | converting twice gives the same as converting once |
| JStrings.CompareToSign | src/main/java/de/tuebingen/sfs/jfst/alphabet/MulticharSymbol.java:81-86 | String.compareTo is negative, zero or positive exactly when the first string is lexicographically smaller, equal or larger |
| JStrings.LessIrreflexive | src/main/java/de/tuebingen/sfs/jfst/symbol/Alphabet.java:30 | the string order that keys the symbol map is irreflexive |
| JStrings.LessTransitive | src/main/java/de/tuebingen/sfs/jfst/symbol/Alphabet.java:30 | the string order is transitive |
| JStrings.LessTotal | src/main/java/de/tuebingen/sfs/jfst/symbol/Alphabet.java:30 | any two strings are equal or ordered one way |
| JStrings.LessAsymmetric | src/main/java/de/tuebingen/sfs/jfst/symbol/Alphabet.java:30 | the string order is asymmetric |
| JStrings.PrefixLess | src/main/java/de/tuebingen/sfs/jfst/symbol/Alphabet.java:125-136 | a proper prefix sorts before the string it begins |
| JStrings.PrefixesByLength | src/main/java/de/tuebingen/sfs/jfst/symbol/Alphabet.java:125-136 | two prefixes of one string are ordered by their length, so getPrefixes lists shorter matches first |
| JStrings.StartsWithAtPrefix | src/main/java/de/tuebingen/sfs/jfst/symbol/Alphabet.java:132 | s.startsWith(p, start) holds exactly when p is a prefix of what follows start |
| JStrings.Insert | src/main/java/de/tuebingen/sfs/jfst/symbol/Alphabet.java:44 | inserting a key into the ordered key list adds exactly that key |
| JStrings.Sort | src/main/java/de/tuebingen/sfs/jfst/symbol/Alphabet.java:30-44 | the key order of the symbol map holds the same strings, duplicates counted |
| JStrings.InsertMembers | src/main/java/de/tuebingen/sfs/jfst/symbol/Alphabet.java:44 | every element after an insertion is the new key or an old one |
| JStrings.HeadLeast | src/main/java/de/tuebingen/sfs/jfst/symbol/Alphabet.java:30 | the first key of an ordered list is at most every key |
| JStrings.ConsSorted | src/main/java/de/tuebingen/sfs/jfst/symbol/Alphabet.java:30 | a list in key order stays so with a smaller-or-equal head |
| JStrings.InsertSorted | src/main/java/de/tuebingen/sfs/jfst/symbol/Alphabet.java:44 | inserting into a list in key order keeps it in key order |
| JStrings.SortSorted | src/main/java/de/tuebingen/sfs/jfst/symbol/Alphabet.java:30-44 | the key order is non-descending and a permutation of the keys |
| JStrings.SortDistinct | src/main/java/de/tuebingen/sfs/jfst/symbol/Alphabet.java:30-44 | distinct keys come out strictly ascending |
| JStrings.DistinctCount | src/main/java/de/tuebingen/sfs/jfst/symbol/Alphabet.java:30-44 | a list without repeats holds each string at most once |
| Collections.Search | src/main/java/de/tuebingen/sfs/jfst/transduce/compact/MutableCompactTransducer.java:86 | the binary search returns an index holding an equal element, or minus one more than a point within the searched range |
| Collections.SearchComplete | src/main/java/de/tuebingen/sfs/jfst/transduce/compact/MutableCompactTransducer.java:86-90 | on a partitioned list a miss means nothing compares equal, and the returned point splits smaller from larger elements |
| Collections.LongCompares | src/main/java/de/tuebingen/sfs/jfst/transduce/compact/CompactTransition.java:70-77 | comparing each stored transition with a key is Long.compare of the words |
| Collections.BinarySearch | src/main/java/de/tuebingen/sfs/jfst/transduce/compact/MutableCompactTransducer.java:86 | a non-negative result is an index of the key; a negative one names a point at most the list length |
| Collections.InsertionPoint | src/main/java/de/tuebingen/sfs/jfst/transduce/compact/MutableCompactTransducer.java:86-88 | the position binarySearch reports lies within the list or just past it |
| Collections.BinarySearchSpec | src/main/java/de/tuebingen/sfs/jfst/transduce/compact/MutableCompactTransducer.java:86-90 | on a sorted list binarySearch finds the key exactly when it is present, and a miss names the point with smaller words before and larger words after |
| Collections.InsertionPointSplits | src/main/java/de/tuebingen/sfs/jfst/transduce/compact/MutableCompactTransducer.java:232-234 | on a strictly ascending list the insertion point splits smaller from larger-or-equal words whether or not the key is present |
| Collections.InsertAtMembers | src/main/java/de/tuebingen/sfs/jfst/transduce/compact/MutableCompactTransducer.java:89 | adding at a position adds exactly that word |
| Collections.InsertAtSpec | src/main/java/de/tuebingen/sfs/jfst/transduce/compact/MutableCompactTransducer.java:86-90 | adding a word at the point that splits smaller from larger words keeps the list strictly ascending |
| Collections.InsertAtSorted | src/main/java/de/tuebingen/sfs/jfst/transduce/compact/MutableCompactTransducer.java:86-90 | the same insertion keeps a sorted list sorted |
| Collections.AddIfAbsentSpec | src/main/java/de/tuebingen/sfs/jfst/transduce/compact/MutableCompactTransducer.java:84-91 | addTransition keeps the list strictly ascending, adds exactly the new word, and grows it by one exactly when the word was absent |
| Collections.AddIfAbsentSorted | src/main/java/de/tuebingen/sfs/jfst/transduce/compact/MutableCompactTransducer.java:84-91 | addTransition on a sorted list keeps it sorted |
| Collections.LeastOf | src/main/java/de/tuebingen/sfs/jfst/transduce/compact/MutableCompactTransducer.java:285-299 | a non-empty set of keys has a least key, the first an ascending TreeMap iteration visits |
| Collections.PickLeast | src/main/java/de/tuebingen/sfs/jfst/transduce/compact/MutableCompactTransducer.java:299 | the next key of the ascending iteration is the least key not yet visited |
| Collections.AddAllSpec | src/main/java/de/tuebingen/sfs/jfst/transduce/compact/MutableCompactTransducer.java:93-96 | adding a list of words one by one keeps the list strictly ascending and adds exactly those words |
| Collections.RemoveAtSpec | src/main/java/de/tuebingen/sfs/jfst/transduce/compact/MutableCompactTransducer.java:241 | removing the i-th word removes exactly that word, shifts the later ones down by one and keeps the order |
| Collections.Insert | src/main/java/de/tuebingen/sfs/jfst/transduce/compact/MutableCompactTransducer.java:60 | inserting into a list adds exactly that word, duplicates counted |
| Collections.Sort | src/main/java/de/tuebingen/sfs/jfst/transduce/compact/MutableCompactTransducer.java:60 | sorting keeps the same words, duplicates counted |
| Collections.InsertSorted | src/main/java/de/tuebingen/sfs/jfst/transduce/compact/MutableCompactTransducer.java:60 | inserting into a sorted list keeps it sorted |
| Collections.SortSpec | src/main/java/de/tuebingen/sfs/jfst/transduce/compact/CompactTransducer.java:64 | sort yields the same words, duplicates kept, in ascending order |
| Collections.SortSorted | src/main/java/de/tuebingen/sfs/jfst/transduce/compact/CompactTransducer.java:64 | a list that is already sorted is left unchanged by sort |
| JavaWords.LongCompare | src/main/java/de/tuebingen/sfs/jfst/transduce/compact/CompactTransition.java:70-77 | Long.compare is negative, zero or positive exactly as the first long is smaller, equal or larger |
| JavaWords.Bits | src/main/java/de/tuebingen/sfs/jfst/transduce/compact/CompactTransition.java:96-102 | the two's-complement pattern of a long lies below 2^64 and agrees with it modulo 2^64 |
| JavaWords.FromBits | src/main/java/de/tuebingen/sfs/jfst/transduce/compact/CompactTransition.java:96-102 | every 64-bit pattern is the pattern of a long |
| JavaWords.ShlSmall | src/main/java/de/tuebingen/sfs/jfst/transduce/compact/CompactTransition.java:96-102 | a left shift of a non-negative value that stays within 64 bits multiplies it by the power of two |
| JavaWords.IntCastSmall | src/main/java/de/tuebingen/sfs/jfst/transduce/compact/CompactTransition.java:104-114 | an (int) cast leaves a value inside the int range unchanged |
| LegacySymbols.Symbol.ToString | src/main/java/de/tuebingen/sfs/jfst/alphabet/CharSymbol.java:103-107 | toString is empty exactly for the epsilon char (or an empty multichar symbol) and is asString otherwise |
| LegacySymbols.Symbol.Length | src/main/java/de/tuebingen/sfs/jfst/alphabet/CharSymbol.java:34-36 | length is the length of toString: 0 for epsilon, 1 for a char, the string's length for a multichar symbol |
| LegacySymbols.Symbol.AppendTo | src/main/java/de/tuebingen/sfs/jfst/alphabet/CharSymbol.java:39-43 | appendTo adds toString at the end of the builder, nothing for epsilon |
| LegacySymbols.Symbol.PrependTo | src/main/java/de/tuebingen/sfs/jfst/alphabet/CharSymbol.java:46-50 | prependTo adds toString at the front of the builder |
| LegacySymbols.CreateSymbol | src/main/java/de/tuebingen/sfs/jfst/alphabet/Alphabet.java:169-171 | createSymbol keeps the string and the id, and makes a char symbol exactly for one-char strings |
| LegacySymbols.EquivalentToCharSpec | src/main/java/de/tuebingen/sfs/jfst/alphabet/CharSymbol.java:53-55 | equivalentTo(char) holds exactly when the symbol stands for that one char |
| LegacySymbols.EquivalentToSpec | src/main/java/de/tuebingen/sfs/jfst/alphabet/MulticharSymbol.java:56-58 | equivalentTo(String) holds exactly for the symbol's toString and its asString |
| LegacySymbols.PrefixOfSpec | src/main/java/de/tuebingen/sfs/jfst/alphabet/MulticharSymbol.java:66-68 | prefixOf(s, start) holds exactly when the symbol's string occurs in s at start |
| LegacySymbols.PrefixOfStringSpec | src/main/java/de/tuebingen/sfs/jfst/alphabet/CharSymbol.java:63-65 | prefixOf(s) holds exactly when the symbol's string is a prefix of s |
| LegacySymbols.StartsWithSpec | src/main/java/de/tuebingen/sfs/jfst/alphabet/MulticharSymbol.java:71-73 | startsWith(c) holds exactly when the symbol's string is non-empty and begins with c |
| LegacySymbols.EqualsSpec | src/main/java/de/tuebingen/sfs/jfst/alphabet/CharSymbol.java:78-80 | equals ignores the id and compares kind and string, and is symmetric |
| LegacySymbols.CompareToAgrees | src/main/java/de/tuebingen/sfs/jfst/alphabet/MulticharSymbol.java:81-94 | where the key is a string or a same-kind symbol, compareTo has the sign of String.compareTo on the two strings |
| LegacySymbols.CharBeforeEmpty | src/main/java/de/tuebingen/sfs/jfst/alphabet/CharSymbol.java:83-100 | a char symbol ranks before the empty string, while the string order puts the empty string first |
| LegacySymbols.MulticharBeforeItsFirstChar | src/main/java/de/tuebingen/sfs/jfst/alphabet/MulticharSymbol.java:86-93 | a longer multichar symbol ranks before its own first char, while the string order puts it after |
| LegacySymbols.NotAntisymmetric | src/main/java/de/tuebingen/sfs/jfst/alphabet/CharSymbol.java:83-100 | "ab" ranks before 'a' and 'a' ranks before "ab", so compareTo is not antisymmetric |
| LegacySymbols.CompareToCorrectedAgrees | src/main/java/de/tuebingen/sfs/jfst/alphabet/MulticharSymbol.java:81-94 | the corrected compareTo has the sign of the string order on every non-empty key |
| LegacyAlphabet.Strings | src/main/java/de/tuebingen/sfs/jfst/alphabet/Alphabet.java:177-179 | one asString per symbol, in list order |
| LegacyAlphabet.Compares | src/main/java/de/tuebingen/sfs/jfst/alphabet/Alphabet.java:49-51 | the comparison results binarySearch sees are compareTo of each element with the key |
| LegacyAlphabet.CorrectedCompares | src/main/java/de/tuebingen/sfs/jfst/alphabet/Alphabet.java:49-51 | the same results under the corrected compareTo |
| LegacyAlphabet.BinarySearch | src/main/java/de/tuebingen/sfs/jfst/alphabet/Alphabet.java:49-51 | a non-negative result indexes an element comparing equal to the key; a negative one names a point within the list |
| LegacyAlphabet.BinarySearchCorrected | src/main/java/de/tuebingen/sfs/jfst/alphabet/Alphabet.java:49-51 | the same under the corrected compareTo |
| LegacyAlphabet.ZeroMeansSameString | src/main/java/de/tuebingen/sfs/jfst/alphabet/Alphabet.java:68-75 | a created symbol comparing equal to a key stands for the key's string |
| LegacyAlphabet.SignsPartition | src/main/java/de/tuebingen/sfs/jfst/alphabet/Alphabet.java:49-51 | on a list ascending by string, results that follow the string order are partitioned |
| LegacyAlphabet.SignsFromAgreement | src/main/java/de/tuebingen/sfs/jfst/alphabet/Alphabet.java:58-60 | where compareTo agrees with the string order, its results follow the string order |
| LegacyAlphabet.SignsFromCorrected | src/main/java/de/tuebingen/sfs/jfst/alphabet/Alphabet.java:49-51 | the corrected compareTo's results always follow the string order |
| LegacyAlphabet.SearchBySigns | src/main/java/de/tuebingen/sfs/jfst/alphabet/Alphabet.java:58-60 | with such results the search finds the key exactly when it is present, at its own entry, and a miss names the split point |
| LegacyAlphabet.StringSearchSpec | src/main/java/de/tuebingen/sfs/jfst/alphabet/Alphabet.java:58-60 | contains(String) and the search in getSymbol find a non-empty string exactly when it is present, and a miss names the insertion point that keeps the list sorted |
| LegacyAlphabet.CorrectedCharSearchSpec | src/main/java/de/tuebingen/sfs/jfst/alphabet/Alphabet.java:49-51 | with the corrected compareTo, contains(char) finds a char exactly when its one-char symbol is present |
| LegacyAlphabet.CharSearchMisses | src/main/java/de/tuebingen/sfs/jfst/alphabet/Alphabet.java:49-51 | on the sorted alphabet 'a', "ab", "ac", contains('a') is false although 'a' is present |
| LegacyAlphabet.SkipTo | src/main/java/de/tuebingen/sfs/jfst/alphabet/Alphabet.java:108-111 | the skip loop stops at the first symbol from i on that starts with c, or at the size |
| LegacyAlphabet.BlockSound | src/main/java/de/tuebingen/sfs/jfst/alphabet/Alphabet.java:112-116 | every symbol the block loop keeps lies in the scanned part and occurs in s at start |
| LegacyAlphabet.BlockIncludes | src/main/java/de/tuebingen/sfs/jfst/alphabet/Alphabet.java:112-116 | every symbol in the run of symbols starting with c that occurs at start is kept |
| LegacyAlphabet.Contiguous | src/main/java/de/tuebingen/sfs/jfst/alphabet/Alphabet.java:108-116 | in a list sorted by string, the symbols that start with c form one block |
| LegacyAlphabet.ScanPrefixesSpec | src/main/java/de/tuebingen/sfs/jfst/alphabet/Alphabet.java:102-118 | getPrefixes returns only symbols occurring in s at start, and on a sorted list every non-empty one |
| LegacyAlphabet.SameStrings | src/main/java/de/tuebingen/sfs/jfst/alphabet/Alphabet.java:15-18 | the two lists of valid tables hold the same strings and have the same length |
| LegacyAlphabet.InsertAscending | src/main/java/de/tuebingen/sfs/jfst/alphabet/Alphabet.java:161-167 | inserting a string at its split point keeps the strings ascending |
| LegacyAlphabet.StringsInsert | src/main/java/de/tuebingen/sfs/jfst/alphabet/Alphabet.java:164 | the strings of a list with a symbol inserted are the old strings with its string inserted at the same place |
| LegacyAlphabet.StringsAppend | src/main/java/de/tuebingen/sfs/jfst/alphabet/Alphabet.java:165 | appending a symbol appends its string |
| LegacyAlphabet.MultisetInsert | src/main/java/de/tuebingen/sfs/jfst/alphabet/Alphabet.java:164 | inserting adds exactly one occurrence of the symbol |
| LegacyAlphabet.InsertValid | src/main/java/de/tuebingen/sfs/jfst/alphabet/Alphabet.java:161-167 | inserting a new string at its split point, with the next id, keeps both lists valid |
| LegacyAlphabet.FoundIsOwnEntry | src/main/java/de/tuebingen/sfs/jfst/alphabet/Alphabet.java:94-98 | in valid tables the sorted entry the search finds for a symbol is that very symbol |
| LegacyAlphabet.GetSymbolValid | src/main/java/de/tuebingen/sfs/jfst/alphabet/Alphabet.java:68-76 | getSymbol of a non-empty string keeps the tables valid, returns a symbol for the string, and adds to the id order exactly as the live alphabet's addSymbol does |
| LegacyAlphabet.FoundSymbolValid | src/main/java/de/tuebingen/sfs/jfst/alphabet/Alphabet.java:74-75 | for a string already present getSymbol returns its symbol and changes nothing |
| LegacyAlphabet.SearchMiss | src/main/java/de/tuebingen/sfs/jfst/alphabet/Alphabet.java:69-72 | a miss names the point where the smaller strings end and the larger ones begin |
| LegacyAlphabet.NewSymbolInterned | src/main/java/de/tuebingen/sfs/jfst/alphabet/Alphabet.java:70-72 | a new string is appended to the id order, as the live alphabet's addSymbol does |
| LegacyAlphabet.Alphabet.constructor | src/main/java/de/tuebingen/sfs/jfst/alphabet/Alphabet.java:23-26 | a new alphabet is empty and valid |
| LegacyAlphabet.Alphabet.FromArray | src/main/java/de/tuebingen/sfs/jfst/alphabet/Alphabet.java:31-34 | Alphabet(String[]) holds the array's strings in first-occurrence order, each null entry named by a counter |
| LegacyAlphabet.Alphabet.FromList | src/main/java/de/tuebingen/sfs/jfst/alphabet/Alphabet.java:39-42 | Alphabet(Iterable) holds the strings in first-occurrence order, each null entry named "NULL" |
| LegacyAlphabet.Alphabet.ContainsString | src/main/java/de/tuebingen/sfs/jfst/alphabet/Alphabet.java:58-60 | contains(String) is membership for every non-empty string |
| LegacyAlphabet.Alphabet.Contains | src/main/java/de/tuebingen/sfs/jfst/alphabet/Alphabet.java:49-51 | contains(char) is sound on a valid alphabet: when the binary search finds the char, the one-char string is in the alphabet (it may miss one, see CharSearchMisses) |
| LegacyAlphabet.CharFound | src/main/java/de/tuebingen/sfs/jfst/alphabet/Alphabet.java:49-51 | a symbol the binary search for a char finds spells that char alone |
| LegacyAlphabet.Alphabet.GetSymbolById | src/main/java/de/tuebingen/sfs/jfst/alphabet/Alphabet.java:83-88 | getSymbol(int) returns null exactly from the size on, and otherwise the symbol carrying that id |
| LegacyAlphabet.Alphabet.Size | src/main/java/de/tuebingen/sfs/jfst/alphabet/Alphabet.java:194-196 | size is the number of symbols |
| LegacyAlphabet.Alphabet.GetSymbols | src/main/java/de/tuebingen/sfs/jfst/alphabet/Alphabet.java:177-179 | getSymbols lists the strings in id order, the i-th being the symbol getSymbol(i) returns |
| LegacyAlphabet.Alphabet.IdOf | src/main/java/de/tuebingen/sfs/jfst/alphabet/Alphabet.java:186-188 | idOf is -1 exactly for an absent string, and otherwise the id of the symbol for that string; nothing is added |
| LegacyAlphabet.Alphabet.AddSymbolAt | src/main/java/de/tuebingen/sfs/jfst/alphabet/Alphabet.java:161-167 | the private addSymbol inserts the new symbol, with the next id, at the given sorted index and at the end of the id order |
| LegacyAlphabet.Alphabet.GetSymbol | src/main/java/de/tuebingen/sfs/jfst/alphabet/Alphabet.java:68-76 | getSymbol returns the found symbol or inserts a new one at the insertion point; on a valid alphabet and a non-empty string it is the live alphabet's addSymbol on the id order |
| LegacyAlphabet.Alphabet.AddSymbol | src/main/java/de/tuebingen/sfs/jfst/alphabet/Alphabet.java:124-126 | addSymbol is getSymbol with the result dropped |
| LegacyAlphabet.Alphabet.AddSymbols | src/main/java/de/tuebingen/sfs/jfst/alphabet/Alphabet.java:132-140 | addSymbols(String[]) adds the strings in order, the k-th null entry as "NULL" followed by k |
| LegacyAlphabet.Alphabet.AddSymbolList | src/main/java/de/tuebingen/sfs/jfst/alphabet/Alphabet.java:146-153 | addSymbols(Iterable) adds the strings in order, every null entry as "NULL" |
| LegacyAlphabet.Alphabet.SetSymbol | src/main/java/de/tuebingen/sfs/jfst/alphabet/Alphabet.java:90-100 | beyond the last id setSymbol adds the symbol; otherwise it overwrites the entry under the id and the sorted entry found for the old symbol, without re-sorting; it throws exactly for a negative id (nothing changed) or a search that misses the old symbol (the entry under the id already overwritten, the sorted list unchanged) |
| LegacyAlphabet.Alphabet.GetPrefixes | src/main/java/de/tuebingen/sfs/jfst/alphabet/Alphabet.java:102-118 | the two loops compute the block scan of symbols occurring in s at start |
| LegacyTransitions.CompactTransition.constructor | src/main/java/de/tuebingen/sfs/jfst/fst/CompactTransition.java:14-16 | the word packs the three ids, which the getters read back when in range |
| LegacyTransitions.CompactTransition.SetInSym | src/main/java/de/tuebingen/sfs/jfst/fst/CompactTransition.java:22-24 | setInSym replaces the input field and, for a 16-bit id, keeps the other two |
| LegacyTransitions.CompactTransition.SetOutSym | src/main/java/de/tuebingen/sfs/jfst/fst/CompactTransition.java:30-32 | setOutSym replaces the output field and keeps the other two |
| LegacyTransitions.CompactTransition.SetToState | src/main/java/de/tuebingen/sfs/jfst/fst/CompactTransition.java:38-40 | setToState replaces the to-state field and keeps the other two |
| LegacyTransitions.CompactTransition.CompareTo | src/main/java/de/tuebingen/sfs/jfst/fst/CompactTransition.java:51-57 | compareTo orders by the word against another CompactTransition or a boxed Long, and is -1 for anything else |
| LegacyTransitions.CompactTransition.Equals | src/main/java/de/tuebingen/sfs/jfst/fst/CompactTransition.java:60-64 | equals holds exactly for a CompactTransition with the same word |
| LegacyTransitions.Transition.constructor | src/main/java/de/tuebingen/sfs/jfst/fst/Transition.java:14-16 | the word packs the three ids, which the getters read back when in range |
| LegacyTransitions.Transition.SetInSym | src/main/java/de/tuebingen/sfs/jfst/fst/Transition.java:22-24 | setInSym replaces the input field and, for a 16-bit id, keeps the other two |
| LegacyTransitions.Transition.SetOutSym | src/main/java/de/tuebingen/sfs/jfst/fst/Transition.java:30-32 | setOutSym replaces the output field and keeps the other two |
| LegacyTransitions.Transition.SetToState | src/main/java/de/tuebingen/sfs/jfst/fst/Transition.java:38-40 | setToState replaces the to-state field and keeps the other two |
| LegacyTransitions.Transition.CompareTo | src/main/java/de/tuebingen/sfs/jfst/fst/Transition.java:47-49 | compareTo is Long.compare of the two words |
| LegacyTransitions.Transition.Equals | src/main/java/de/tuebingen/sfs/jfst/fst/Transition.java:52-56 | equals holds exactly for a Transition with the same word |
| LegacySearch.Prefixes | src/main/java/de/tuebingen/sfs/jfst/alphabet/Alphabet.java:102-118 | every symbol getPrefixes finds at i is non-empty, fits in what is left, prints as it reads and occurs in the input at i |
| LegacySearch.ApplyTo | src/main/java/de/tuebingen/sfs/jfst/fst/ApplicableFST.java:55-68 | apply of the empty input from an accepting start state yields the empty string |
| LegacySearch.ApplyFollowsLiteral | src/main/java/de/tuebingen/sfs/jfst/fst/ApplicableFST.java:106-120 | a transition whose input is the asString of a symbol getPrefixes finds at i, followed by any string found from its target after that symbol, gives its output before that string |
| LegacySearch.ApplyFollowsEpsilon | src/main/java/de/tuebingen/sfs/jfst/fst/ApplicableFST.java:91-103 | while fewer than maxIns epsilons were taken in a row, an epsilon transition followed by any string found from its target gives its output before that string |
| LegacySearch.WholeInputPrefix | src/main/java/de/tuebingen/sfs/jfst/alphabet/Alphabet.java:102-118 | on an alphabet in string order, a symbol spelling the whole input is among the prefixes found at 0 and consumes the whole input |
| LegacySearch.ApplyOneArc | src/main/java/de/tuebingen/sfs/jfst/fst/ApplicableFST.java:55-120 | a transition from the start state whose input spells an alphabet symbol equal to the whole input, into an accepting state, makes apply yield its output |
| LegacySearch.PrefixSearchFromZero | src/main/java/de/tuebingen/sfs/jfst/fst/ApplicableFST.java:175-177 | prefixSearch as written, begun at state 0: every string it returns extends the prefix |
| LegacySearch.PrefixSearchFromStart | src/main/java/de/tuebingen/sfs/jfst/fst/ApplicableFST.java:175-177 | prefixSearch begun at the start state: every result extends the prefix, and an accepting start state yields the empty prefix itself |
| LegacySearch.FirstIdentitySpec | src/main/java/de/tuebingen/sfs/jfst/fst/ApplicableFST.java:123-134 | the identity loop yields nothing exactly when no identity transition leads to a string, and otherwise yields s[i] before the strings of the first transition that leads to some, and of no other |
| LegacySearch.ApplyNotMonotone | src/main/java/de/tuebingen/sfs/jfst/fst/ApplicableFST.java:91-134 | because the identity loop stops at the first transition that yields something, allowing one more insertion changes the result for "x" from {"x"} to {"xy"} |
| LegacySearch.DetourShape | src/main/java/de/tuebingen/sfs/jfst/fst/ApplicableFST.java:91-134 | what the search sees of the example automaton for input "x": no symbol occurs, no epsilon from the start, both identity transitions |
| LegacySearch.DetourWithoutInsertions | src/main/java/de/tuebingen/sfs/jfst/fst/ApplicableFST.java:123-134 | without insertions the first identity target yields nothing, so the loop goes on to the second and finds "x" |
| LegacySearch.DetourWithOneInsertion | src/main/java/de/tuebingen/sfs/jfst/fst/ApplicableFST.java:91-134 | with one insertion the first identity target yields "y", and the loop stops there |
| LegacySearch.PrefixSearchExtends | src/main/java/de/tuebingen/sfs/jfst/fst/ApplicableFST.java:179-253 | every string the private prefixSearch finds from position i extends the input left at i |
| LegacySearch.EpsilonsExtend | src/main/java/de/tuebingen/sfs/jfst/fst/ApplicableFST.java:210-215 | strings found through epsilon transitions extend the input left at i |
| LegacySearch.LiteralsExtend | src/main/java/de/tuebingen/sfs/jfst/fst/ApplicableFST.java:219-228 | strings found through the symbols occurring at i extend the input left at i |
| LegacySearch.LiteralStepExtends | src/main/java/de/tuebingen/sfs/jfst/fst/ApplicableFST.java:219-228 | one literal step followed by a string found after it extends the input left at i |
| LegacySearch.PrependSymbol | src/main/java/de/tuebingen/sfs/jfst/fst/ApplicableFST.java:223-225 | a symbol occurring at i followed by an extension of the rest extends the input left at i |
| LegacySearch.IdentitiesExtend | src/main/java/de/tuebingen/sfs/jfst/fst/ApplicableFST.java:230-239 | strings found through identity transitions extend the input left at i, since they copy the input character |
| LegacySearch.PrefixSearchMissesStart | src/main/java/de/tuebingen/sfs/jfst/fst/ApplicableFST.java:175-177 | with start state 1 accepting and state 0 not, prefixSearch("") misses the empty string that the search from the start state finds |
| LegacyMutable.Inputs | src/main/java/de/tuebingen/sfs/jfst/fst/MutableFSTOld.java:303 | the inputs of a state's literal arcs, in list order |
| LegacyMutable.Zip | src/main/java/de/tuebingen/sfs/jfst/fst/MutableFSTOld.java:303-307 | the three parallel lists hold one literal arc per index, with those inputs |
| LegacyMutable.InsertionIndex | src/main/java/de/tuebingen/sfs/jfst/fst/MutableFSTOld.java:343-345 | the index addLiteralArc inserts at lies within the list or just past it |
| LegacyMutable.InsertLiteralSpec | src/main/java/de/tuebingen/sfs/jfst/fst/MutableFSTOld.java:342-349 | addLiteralArc adds exactly the new arc at the found index, the old arcs kept in their order around it, duplicates allowed |
| LegacyMutable.SignsPartitionLoose | src/main/java/de/tuebingen/sfs/jfst/fst/MutableFSTOld.java:343 | comparison results that follow a non-decreasing list of strings are partitioned |
| LegacyMutable.SearchSplits | src/main/java/de/tuebingen/sfs/jfst/fst/MutableFSTOld.java:343-345 | on such a list the reported index splits the strings not above the key from those not below it, and a hit is at the key's string |
| LegacyMutable.InsertNonDescending | src/main/java/de/tuebingen/sfs/jfst/fst/MutableFSTOld.java:346-348 | a string placed at such a split point keeps the list non-decreasing |
| LegacyMutable.InputStringsInsert | src/main/java/de/tuebingen/sfs/jfst/fst/MutableFSTOld.java:346 | inserting an arc inserts its input's string at the same index |
| LegacyMutable.InsertLiteralSorted | src/main/java/de/tuebingen/sfs/jfst/fst/MutableFSTOld.java:342-349 | where compareTo agrees with the string order on every stored input, addLiteralArc keeps inSyms in string order |
| LegacyMutable.InsertLiteralUnsorts | src/main/java/de/tuebingen/sfs/jfst/fst/MutableFSTOld.java:342-349 | with "ab" stored, adding an arc reading 'a' leaves inSyms as "ab", "a", out of string order |
| LegacyMutable.CorrectedSplits | src/main/java/de/tuebingen/sfs/jfst/fst/MutableFSTOld.java:343-345 | the search with the corrected compareTo splits a non-decreasing list around any non-empty key |
| LegacyMutable.InsertLiteralCorrectedSorted | src/main/java/de/tuebingen/sfs/jfst/fst/MutableFSTOld.java:342-349 | with the corrected compareTo every insertion of a non-empty symbol keeps inSyms in string order |
| LegacyMutable.InsertLiteralCorrectedAdds | src/main/java/de/tuebingen/sfs/jfst/fst/MutableFSTOld.java:342-349 | the corrected insertion adds exactly the new arc |
| LegacyMutable.Swapped | src/main/java/de/tuebingen/sfs/jfst/fst/MutableFSTOld.java:359-368 | each arc with input and output exchanged, same target, same order |
| LegacyMutable.SwappedTwice | src/main/java/de/tuebingen/sfs/jfst/fst/MutableFSTOld.java:255-260 | swapping twice gives the arcs back |
| LegacyMutable.InsertLiteralSolid | src/main/java/de/tuebingen/sfs/jfst/fst/MutableFSTOld.java:342-349 | inserting an arc with a whole input keeps every input whole |
| LegacyMutable.SolidInputsComparable | src/main/java/de/tuebingen/sfs/jfst/fst/MutableFSTOld.java:343 | inputs that are whole symbols can be compared with any key |
| LegacyMutable.RebuildSpec | src/main/java/de/tuebingen/sfs/jfst/fst/MutableFSTOld.java:359-368 | invert's rebuilding loop keeps every arc, duplicates included, and adds no other |
| LegacyMutable.RebuildSorted | src/main/java/de/tuebingen/sfs/jfst/fst/MutableFSTOld.java:359-368 | when all inputs agree with one another, the rebuilt inputs are in string order |
| LegacyMutable.AgreeingAfterInsert | src/main/java/de/tuebingen/sfs/jfst/fst/MutableFSTOld.java:366-367 | after one turn of the loop the arcs still agree with one another |
| LegacyMutable.WalkBack | src/main/java/de/tuebingen/sfs/jfst/fst/MutableFSTOld.java:527-530 | the walk back from j ends at an index between 0 and j + 1 |
| LegacyMutable.MatchesSpec | src/main/java/de/tuebingen/sfs/jfst/fst/MutableFSTOld.java:523-550 | for symbols as createSymbol builds them, each firstIndexOf overload's test is equality of strings |
| LegacyMutable.WalkBackSpec | src/main/java/de/tuebingen/sfs/jfst/fst/MutableFSTOld.java:527-530 | the walk back from a match stops at the first index of the run of matches |
| LegacyMutable.FirstOfSpec | src/main/java/de/tuebingen/sfs/jfst/fst/MutableFSTOld.java:523-550 | on a list in string order whose symbols agree with the key, firstIndexOf is -1 exactly when no symbol has the key's string, and otherwise the first index of one that has it |
| LegacyMutable.WalkBackFirst | src/main/java/de/tuebingen/sfs/jfst/fst/MutableFSTOld.java:527-530 | from an index with the key's string the walk back ends at the first such index |
| LegacyMutable.Run | src/main/java/de/tuebingen/sfs/jfst/fst/MutableFSTOld.java:416 | the forward loop visits indices from j on while its test holds |
| LegacyMutable.Block | src/main/java/de/tuebingen/sfs/jfst/fst/MutableFSTOld.java:414-423 | a lookup follows only indices that pass the forward test, and none when firstIndexOf returns -1 |
| LegacyMutable.RunSpec | src/main/java/de/tuebingen/sfs/jfst/fst/MutableFSTOld.java:416 | the forward run from j reaches m exactly when every index from j to m passes the test |
| LegacyMutable.ContinuesSpec | src/main/java/de/tuebingen/sfs/jfst/fst/MutableFSTOld.java:416 | for created symbols the forward test is equality of strings too |
| LegacyMutable.BlockSpec | src/main/java/de/tuebingen/sfs/jfst/fst/MutableFSTOld.java:414-436 | on a list in string order agreeing with the key, the lookup for the epsilon char or a symbol follows exactly the indices whose symbol has the key's string |
| LegacyMutable.StateComparable | src/main/java/de/tuebingen/sfs/jfst/fst/MutableFSTOld.java:343 | the inputs of a state's arcs can be compared with any key |
| LegacyMutable.EqualsLength | src/main/java/de/tuebingen/sfs/jfst/fst/MutableFSTOld.java:430-432 | equal symbols have the same length and the same toString |
| LegacyMutable.ApplyTo | src/main/java/de/tuebingen/sfs/jfst/fst/MutableFSTOld.java:289-292 | apply of the empty input from an accepting start state yields the empty string |
| LegacyMutable.PrefixSearchFrom | src/main/java/de/tuebingen/sfs/jfst/fst/MutableFSTOld.java:294-297 | prefixSearch from the start state: every result extends the prefix, and an accepting start state yields the empty prefix itself |
| LegacyMutable.PrefixSearchExtends | src/main/java/de/tuebingen/sfs/jfst/fst/MutableFSTOld.java:452-521 | every string the state's prefixSearch finds from position i extends the input left at i |
| LegacyMutable.EpsilonsExtend | src/main/java/de/tuebingen/sfs/jfst/fst/MutableFSTOld.java:482-489 | strings found through epsilon arcs extend the input left at i |
| LegacyMutable.LiteralsExtend | src/main/java/de/tuebingen/sfs/jfst/fst/MutableFSTOld.java:491-499 | strings found through arcs reading a symbol occurring at i extend the input left at i |
| LegacyMutable.ArcStepExtends | src/main/java/de/tuebingen/sfs/jfst/fst/MutableFSTOld.java:494-497 | one literal arc reading a symbol that occurs at i, followed by a string found after it, extends the input left at i |
| LegacyMutable.IdentitiesExtend | src/main/java/de/tuebingen/sfs/jfst/fst/MutableFSTOld.java:501-509 | strings found through identity arcs extend the input left at i |
| LegacyMutable.ApplyFollowsLiteral | src/main/java/de/tuebingen/sfs/jfst/fst/MutableFSTOld.java:427-436 | where a state's inputs are in string order and agree with the symbol's compareTo, apply follows every arc whose input has the string of a symbol occurring at i |
| LegacyMutable.InApplyLiterals | src/main/java/de/tuebingen/sfs/jfst/fst/MutableFSTOld.java:430-435 | one arc of the run found for a symbol, followed by a string of its target, gives a string of the state |
| LegacyMutable.ApplyFollowsEpsilon | src/main/java/de/tuebingen/sfs/jfst/fst/MutableFSTOld.java:414-423 | where a state's inputs are in string order and agree with the epsilon char's compareTo, apply follows every epsilon arc |
| LegacyMutable.ApplyOneArc | src/main/java/de/tuebingen/sfs/jfst/fst/MutableFSTOld.java:387-437 | an arc from the start state whose input spells an alphabet symbol equal to the whole input, into an accepting state, makes apply yield the toString of its output, where the state's inputs are in string order |
| LegacyMutable.InvertedSpec | src/main/java/de/tuebingen/sfs/jfst/fst/MutableFSTOld.java:359-368 | invert on one state's arcs re-adds exactly the swapped arcs, duplicates included |
| LegacyMutableFst.MutableState.Literals | src/main/java/de/tuebingen/sfs/jfst/fst/MutableFSTOld.java:303-307 | the literal arcs the three parallel lists hold, with those inputs, outputs and targets |
| LegacyMutableFst.MutableState.constructor | src/main/java/de/tuebingen/sfs/jfst/fst/MutableFSTOld.java:319-326 | a new state has the given flag and id and no arcs |
| LegacyMutableFst.MutableState.SetAccepting | src/main/java/de/tuebingen/sfs/jfst/fst/MutableFSTOld.java:332-334 | setAccepting changes the flag and nothing else |
| LegacyMutableFst.MutableState.AddLiteralArc | src/main/java/de/tuebingen/sfs/jfst/fst/MutableFSTOld.java:342-349 | addLiteralArc inserts the arc into all three lists at the index the search finds; identity arcs and flag unchanged |
| LegacyMutableFst.MutableState.AddIdentityArc | src/main/java/de/tuebingen/sfs/jfst/fst/MutableFSTOld.java:355-357 | addIdentityArc appends the target and changes nothing else |
| LegacyMutableFst.MutableState.Invert | src/main/java/de/tuebingen/sfs/jfst/fst/MutableFSTOld.java:359-368 | invert leaves as literal arcs the old arcs with input and output exchanged, re-added in the old order |
| LegacyMutableFst.MutableState.FirstIndexOf | src/main/java/de/tuebingen/sfs/jfst/fst/MutableFSTOld.java:523-551 | the loop computes firstIndexOf: the search, then the walk back over the run of matches |
| LegacyMutableFst.RebuildStep | src/main/java/de/tuebingen/sfs/jfst/fst/MutableFSTOld.java:366-367 | one turn of invert's loop inserts one arc and leaves one fewer to rebuild |
| LegacyMutableFst.ZipInsert | src/main/java/de/tuebingen/sfs/jfst/fst/MutableFSTOld.java:346-348 | inserting at one index in all three lists inserts the arc at that index |
| LegacyMutableFst.SwappedSolid | src/main/java/de/tuebingen/sfs/jfst/fst/MutableFSTOld.java:360-367 | swapping arcs whose outputs are whole symbols gives whole inputs |
| LegacyMutableFst.MutableFstOld.constructor | src/main/java/de/tuebingen/sfs/jfst/fst/MutableFSTOld.java:173-184 | the reader creates the given number of empty non-accepting states with ids in order and takes the one under the start id as start |
| LegacyMutableFst.MutableFstOld.View | src/main/java/de/tuebingen/sfs/jfst/fst/MutableFSTOld.java:289-297 | the automaton as a value: start id, each state's flag, literal arcs and identity targets, and the alphabet's symbols in string order |
| LegacyMutableFst.MutableFstOld.Invert | src/main/java/de/tuebingen/sfs/jfst/fst/MutableFSTOld.java:255-260 | invert() inverts every state's literal arcs and returns the automaton itself |
| LegacyMutableFst.ReportedArcs | src/main/java/de/tuebingen/sfs/jfst/fst/MutableFSTOld.java:623-662 | a state reports one arc per literal arc and per identity target |
| LegacyMutableFst.Reports | src/main/java/de/tuebingen/sfs/jfst/fst/MutableFSTOld.java:605-620 | every state is reported in id order with its flag and its arcs |
| LegacyMutableFst.RecoverReported | src/main/java/de/tuebingen/sfs/jfst/fst/MutableFSTOld.java:636-662 | the report of a state whose symbols come from the table loses nothing: reading it back gives the literal arcs and identity targets in their order |
| LegacyMutableFst.MutableFstStateIterator.constructor | src/main/java/de/tuebingen/sfs/jfst/fst/MutableFSTOld.java:567-577 | the iterator copies the alphabet and interns the identity string after its symbols; all cursors start at -1 |
| LegacyMutableFst.MutableFstStateIterator.GetStartState | src/main/java/de/tuebingen/sfs/jfst/fst/MutableFSTOld.java:594-597 | getStartState is the start state's id, which is its index |
| LegacyMutableFst.MutableFstStateIterator.GetIdentityId | src/main/java/de/tuebingen/sfs/jfst/fst/MutableFSTOld.java:599-602 | getIdentityId is the last id of the copied alphabet |
| LegacyMutableFst.MutableFstStateIterator.NextState | src/main/java/de/tuebingen/sfs/jfst/fst/MutableFSTOld.java:609-615 | nextState moves to the next state in id order and resets both cursors |
| LegacyMutableFst.MutableFstStateIterator.NextTransition | src/main/java/de/tuebingen/sfs/jfst/fst/MutableFSTOld.java:627-633 | nextTransition advances the literal cursor while literal arcs remain, then the identity cursor |
| LegacyMutableFst.MutableFstStateIterator.ReadAll | src/main/java/de/tuebingen/sfs/jfst/fst/MutableFSTOld.java:556-663 | reading the iterator to the end gives the start state, the identity id and every state in id order with its flag and reported arcs |
| LegacyMutableFst.MutableFstStateIterator.ReadArcs | src/main/java/de/tuebingen/sfs/jfst/fst/MutableFSTOld.java:622-662 | reading the current state's transitions gives its literal arcs, then its identity arcs |
| LegacyMutableFst.WithIdentity | src/main/java/de/tuebingen/sfs/jfst/fst/MutableFSTOld.java:569-570 | the iterator's alphabet copies a valid table's strings with their ids and interns the identity string after them |
| LegacyMutableFst.ValidDistinct | src/main/java/de/tuebingen/sfs/jfst/alphabet/Alphabet.java:15-18 | a valid legacy alphabet holds each string once |
| LegacyMutableFst.CopyLegacyTable | src/main/java/de/tuebingen/sfs/jfst/fst/MutableFSTOld.java:569 | new Alphabet(a.getSymbols()) rebuilds a table that holds each string once |
| LegacyCompact.PackedArc | src/main/java/de/tuebingen/sfs/jfst/fst/CompactFST.java:71-75 | an identity arc is packed as (idIdx, idIdx, to), any other arc with its own ids; the target is always kept |
| LegacyCompact.PackedStates | src/main/java/de/tuebingen/sfs/jfst/fst/CompactFST.java:66-81 | the constructor packs one state per reported state |
| LegacyCompact.PackedState | src/main/java/de/tuebingen/sfs/jfst/fst/CompactFST.java:66-81 | each packed state keeps its flag and packs each reported arc at its own position |
| LegacyCompact.Spellings | src/main/java/de/tuebingen/sfs/jfst/fst/CompactFST.java:449-450 | the transition iterators spell one string per id |
| LegacyCompact.WordReport | src/main/java/de/tuebingen/sfs/jfst/fst/CompactFST.java:546-572 | the state iterator reports a word as identity exactly when its input id is idIdx, with -1 for both ids, and otherwise with the word's own ids; an identity target is -1 in CompactFST and kept in CompactFST2 |
| LegacyCompact.WordReports | src/main/java/de/tuebingen/sfs/jfst/fst/CompactFST.java:536-572 | one report per word, in stored order |
| LegacyCompact.Walked | src/main/java/de/tuebingen/sfs/jfst/fst/CompactFST.java:524-544 | CompactFST's iterator walks over every word of a span but the first |
| LegacyCompact.SkippingReports | src/main/java/de/tuebingen/sfs/jfst/fst/CompactFST.java:476-575 | CompactFST's state iterator reports every state with its flag and the reports of its span past the first word, identity targets hidden |
| LegacyCompact.FullReports | src/main/java/de/tuebingen/sfs/jfst/fst/CompactFST2.java:244-338 | CompactFST2's state iterator reports every state with its flag and the reports of its whole span, every target kept |
| LegacyCompact.CompactFst.constructor | src/main/java/de/tuebingen/sfs/jfst/fst/CompactFST.java:49-82 | start, alphabet object and identity id taken from the iterator, the identity string added when the identity id is the alphabet's size; arrays sized by the declared counts hold the offsets, flags and packed words of the reported states, each span sorted |
| LegacyCompact.CompactFst.AddIdentity | src/main/java/de/tuebingen/sfs/jfst/fst/CompactFST.java:55-57 | the identity string is added to the alphabet exactly when the identity id is its size |
| LegacyCompact.CompactFst.Layout | src/main/java/de/tuebingen/sfs/jfst/fst/CompactFST.java:59-81 | the loops lay out the packed states end to end, one offset and flag per state, each span sorted |
| LegacyCompact.CompactFst.NOfStates | src/main/java/de/tuebingen/sfs/jfst/fst/CompactFST.java:183-186 | nOfStates is the number of offsets |
| LegacyCompact.CompactFst.NOfTransitions | src/main/java/de/tuebingen/sfs/jfst/fst/CompactFST.java:188-191 | nOfTransitions is the length of the word array |
| LegacyCompact.CompactFst.TransitionsFor | src/main/java/de/tuebingen/sfs/jfst/fst/CompactFST.java:404-454 | the iterator for a string the alphabet lacks yields nothing; for a present string of an alphabet of up to 2^16 symbols it reports exactly the state's words whose input field is that string's id, with the string as input and as identity output, possibly preceded by copies of the key the walk-back collects from earlier spans |
| LegacyCompact.CompactFst.KeyLookup | src/main/java/de/tuebingen/sfs/jfst/fst/CompactFST.java:412-443 | the binary search, walk-back and forward run over the span give the lookup's reports |
| LegacyCompact.CompactFst.AllTransitions | src/main/java/de/tuebingen/sfs/jfst/fst/CompactFST.java:433-453 | the iterator over all transitions reports the whole span in stored order, the input spelled from its id, an identity output as the empty string |
| LegacyCompact.StateListsSorted | src/main/java/de/tuebingen/sfs/jfst/fst/CompactFST.java:80 | every list the constructor lays out is sorted |
| LegacyCompact.CopyAlphabet | src/main/java/de/tuebingen/sfs/jfst/fst/CompactFST.java:487 | the state iterator's alphabet is a copy of the table's strings with their ids |
| LegacyCompact.CompactFstStateIterator.constructor | src/main/java/de/tuebingen/sfs/jfst/fst/CompactFST.java:485-492 | a new iterator copies the alphabet and sets all cursors to -1 |
| LegacyCompact.CompactFstStateIterator.NextState | src/main/java/de/tuebingen/sfs/jfst/fst/CompactFST.java:524-529 | nextState moves to the next state, t on its offset and tend at its span's end |
| LegacyCompact.CompactFstStateIterator.NextTransition | src/main/java/de/tuebingen/sfs/jfst/fst/CompactFST.java:541-544 | nextTransition advances t and nothing else |
| LegacyCompact.CompactFstStateIterator.ReadAll | src/main/java/de/tuebingen/sfs/jfst/fst/CompactFST.java:476-575 | reading CompactFST's iterator to the end gives the start, the identity id and the skipping reports of every state |
| LegacyCompact.CompactFstStateIterator.ReadArcs | src/main/java/de/tuebingen/sfs/jfst/fst/CompactFST.java:536-572 | the inner loop reports the words after the state's offset up to its span's end |
| LegacyCompact.CompactFst2StateIterator.constructor | src/main/java/de/tuebingen/sfs/jfst/fst/CompactFST2.java:253-260 | a new iterator copies the alphabet and sets all cursors to -1 |
| LegacyCompact.CompactFst2StateIterator.NextState | src/main/java/de/tuebingen/sfs/jfst/fst/CompactFST2.java:292-297 | nextState moves to the next state, t just before its offset and tend at its span's end |
| LegacyCompact.CompactFst2StateIterator.NextTransition | src/main/java/de/tuebingen/sfs/jfst/fst/CompactFST2.java:309-312 | nextTransition advances t and nothing else |
| LegacyCompact.CompactFst2StateIterator.ReadAll | src/main/java/de/tuebingen/sfs/jfst/fst/CompactFST2.java:244-338 | reading CompactFST2's iterator to the end gives the start, the identity id and every state with every word of its span |
| LegacyCompact.CompactFst2StateIterator.ReadArcs | src/main/java/de/tuebingen/sfs/jfst/fst/CompactFST2.java:304-338 | the inner loop reports every word of the state's span in stored order |
| LegacyCompact.FullReportsRoundTrip | src/main/java/de/tuebingen/sfs/jfst/fst/CompactFST2.java:41-74 | for words with non-negative to-states, packing what CompactFST2's iterator reports restores every span and flag, so a constructor fed by it rebuilds the same arrays |
| LegacyCompact.SkippingReportsLoseArcs | src/main/java/de/tuebingen/sfs/jfst/fst/CompactFST.java:524-572 | for a state holding a literal word and then an identity word, CompactFST's iterator reports only the identity arc, with target -1, where CompactFST2's reports both |
| LegacyCompact.SkippingReportsExample | src/main/java/de/tuebingen/sfs/jfst/fst/CompactFST.java:524-572 | the concrete case: words 1:1 and 3:3, both to state 0, identity id 3 |
| LegacyCompact.PackedCount | src/main/java/de/tuebingen/sfs/jfst/fst/CompactFST.java:66-81 | packing keeps the number of arcs of every state, and so the total |
| LegacyCompact.FewerArcs | src/main/java/de/tuebingen/sfs/jfst/fst/CompactFST.java:536-539 | a walk with no more arcs in any state and fewer in one has fewer arcs in all |
| LegacyCompact.NoMoreArcs | src/main/java/de/tuebingen/sfs/jfst/fst/CompactFST.java:536-539 | a walk with no more arcs in any state has no more arcs in all |
| LegacyCompact.FullReportsCount | src/main/java/de/tuebingen/sfs/jfst/fst/CompactFST2.java:292-312 | CompactFST2's iterator reports every word from the first offset on |
| LegacyCompact.SkippingReportsUndercount | src/main/java/de/tuebingen/sfs/jfst/fst/CompactFST.java:499-544 | CompactFST's iterator declares the array's length as its transition count but reports fewer words once any span is non-empty, while CompactFST2's reports all of them |
| LegacyCompact.SkippingFits | src/main/java/de/tuebingen/sfs/jfst/fst/CompactFST.java:551-572 | every id CompactFST's iterator reports fits a Java int |

## Left out

- File readers and writers are stream I/O, and the helpers they use are not part of this model. This covers the HFST/JFST/AT&T state iterators over files, the binary and AT&T writers, readFromATT/readFromBinary and writeToBinary/writeToATT.
- MutableFSTOld's stream constructors (fst/MutableFSTOld.java:75-253) are parsing over I/O. Only the state creation they perform is modelled.
- minimize, repeat, repeatMin, optional, invert, reverse, concat, union, priorityUnion, intersect, compose and subtract have empty bodies (transduce/compact/MutableCompactTransducer.java:313-371). They are given no behaviour.
- The apply and prefixSearch overloads that take ignored input symbols (live and legacy) are not modelled. Only the overloads without them are: the ignore step does not consume input, and its recursion has no bound that Dafny could be given without one more acyclicity witness.
- Search.PrefixSearch, LegacySearch.PrefixSearch and LegacyMutable's apply/prefixSearch take a rank witness that the epsilon graph is acyclic (EpsRanked), as a precondition. The source recurses without bound on an epsilon cycle until the stack overflows. That non-termination is not modelled.
- EpsilonRemoval and MutableCompact.MutableCompactTransducer.RemoveEpsilons likewise require the epsilon:epsilon graph to be acyclic (Ranked). The source's recursion has no visited guard and does not terminate on a cycle.
- LegacySearch and LegacyMutable (apply and prefixSearch with their steps) require the input to contain no epsilon char (LegacySearch.Plain). Both take the next symbols from the alphabet's getPrefixes. At an epsilon char, getPrefixes offers the zero-length epsilon symbol with the insertion counter reset, so the search could recurse forever. The rank witness EpsRanked bounds only the epsilon transitions counted against maxInsertions, not this zero-length literal step.
- Legacy symbol lists hold no empty MulticharSymbol (Solid, Whole). Comparing a CharSymbol with an empty MulticharSymbol reads charAt(0), which throws; exceptions are not modelled.
- Java int/long overflow is modelled only where the packing and the casts use it. The longs are ints in the signed 64-bit range, with the bit operators defined on the 64-bit pattern. Counters and ids elsewhere are unbounded.
- HashSet, TreeMap and LinkedHashSet iteration orders are not modelled. Results that the source collects into a set are Dafny sets, and orders the source does not fix are not stated.
- Arrays.sort and Collections.sort are modelled by writing back the sorted sequence a specification function computes. The JDK's in-place algorithm is not modelled.
- The Alphabet object that several automata share is held as a value, so aliasing between automata is not modelled.
- CompactFST and CompactFST2 share one class, LegacyCompact.CompactFst, because their constructors and lookups are identical. Their state iterators are two classes.
- CompactFST's own apply and prefixSearch (fst/CompactFST.java:202-400) repeat ApplicableFST's workers and are modelled by LegacySearch.
- The CompactFst constructor appends the identity symbol after laying out the arrays rather than before. The two steps touch disjoint state.
- The debugging field depth and the printing helpers are left out.
- JStrings.CompareToSign: orders strings by Dafny chars, which are Unicode scalar values. Java compares UTF-16 code units, so the two orders differ once a character beyond the Basic Multilingual Plane meets one from U+E000 to U+FFFF, and lengths differ for such characters.
- LegacySymbols.CreateSymbol: a single character beyond the Basic Multilingual Plane becomes a CharSymbol here, where Java's two-unit string makes a MulticharSymbol. The one-character steps of Search.ApplyUnknowns, LegacySearch.FirstIdentity and LegacyMutable.ApplyIdentities likewise consume one scalar value where Java consumes one code unit.
- MutableCompact.MutableCompactTransducer.RemoveEpsilons: requires every state's words strictly ascending (WellFormed), while the class only keeps them sorted. On a list with duplicate words, which FromIterator keeps, the source's forward scan can leave an epsilon:epsilon word behind (MutableCompact.DuplicateEpsilonEscapesScan), so the removal is not stated for such lists.
- MutableCompact.MutableCompactTransducer.Determinize: requires strictly ascending lists for the same reason, since it begins with removeEpsilons.
- MutableCompact.MutableCompactTransducer.Rebuild and Determinize: stop with complete false once the lists hold MAX_STATES (2^31 - 1) states and a new one is needed. Java's addState would go on, with the int counter s of line 72 wrapping to a negative id. The model does not follow the source past that point; below it, the outcome is the full subset construction.
- MutableCompact.MutableCompactTransducer.TransitionsFor, Compact.CompactTransducer.TransitionsFor and LegacyCompact.CompactFst.TransitionsFor: require at most 2^16 symbols. A larger id loses its high bits in ci << 48, and the lookup then selects another symbol's words; that aliasing is not modelled.
- Compact.CompactTransducer.TransitionsFor and LegacyCompact.CompactFst.TransitionsFor: require the output id of every stored word to be in the table, where the source needs this only of the words it reports. A bad id elsewhere does not disturb the source's lookup.
- MutableCompact.MutableCompactTransducer.AllTransitions, Compact.CompactTransducer.AllTransitions and LegacyCompact.CompactFst.AllTransitions: require every word's input and output ids to be ids of the table (Iterations.Spelled). A word whose input field is 2^15 or more reads back as a negative input id. For such an id getSymbol passes the size test and calls id2sym.get with it, which throws IndexOutOfBoundsException. That can happen once an alphabet holds more than 32767 symbols, and also on prefixSearch's suffix walk. The model has no exception path for this; it does not model the all-transitions iterator on such words.
- LegacyAlphabet.Alphabet.GetSymbolById and SymbolTable.Alphabet.GetSymbol: require a non-negative id. getSymbol(int) in both generations tests only id < id2sym.size(), so a negative id reaches id2sym.get and throws IndexOutOfBoundsException. These two functions have no exception path; LegacyAlphabet.Alphabet.SetSymbol, a method, reports that case as thrown.
- SymbolTable.Alphabet.GetIdOrCreate: follows computeIfAbsent as the Map interface's default method defines it, which gives the same outcome as addSymbol. In the source (symbol/Alphabet.java:121-123) the mapping function is addSymbol itself, which puts into the same TreeMap. From JDK 15 on, TreeMap's own computeIfAbsent detects that modification and throws ConcurrentModificationException for every symbol not yet present. That behaviour depends on the JDK and is not modelled. It is on the path of MutableCompactTransducer.addTransition.
- Search.ApplyTo: the contracts and lemmas show that apply finds the output of every path they follow (Search.ApplyFollowsLiteral, ApplyFollowsEpsilon, ApplyFollowsUnknownIdentity, ApplyOneArc). The converse, that every result is the output of an accepting path over the input, is not stated.
- LegacySearch.ApplyTo: likewise only the path-following direction is stated (LegacySearch.ApplyFollowsLiteral, ApplyFollowsEpsilon, ApplyOneArc).
- LegacyMutable.ApplyTo: likewise only the path-following direction is stated (LegacyMutable.ApplyFollowsLiteral, ApplyFollowsEpsilon, ApplyOneArc).
- Compact.CompactTransducer.GetMutableCopy, Compact.WalkRoundTrip, Iterations.RepackWord, Iterations.RepackArcs and LegacyCompact.FullReportsRoundTrip: stated only for words whose to-state field is below 2^31 (Repackable). Every input field is covered. A larger to-field reads back through the int cast as a negative id, and makeTransition's widening of that id sets the upper 32 bits, so such a word is not reproduced. State ids are ints, so the automata the classes build never store one.

## Findings

| source | as written | input that shows it | evidently intended | confidence | as-written member | corrected member |
|---|---|---|---|---|---|---|
| src/main/java/de/tuebingen/sfs/jfst/transduce/ApplicableTransducer.java:183-185 | prefixSearch begins the search at state 0 | start state 1 accepting, state 0 not accepting, prefix "": "" is not returned | begin at the automaton's start state | not executed | Search.PrefixSearchMissesStart | Search.PrefixSearchFromStart |
| src/main/java/de/tuebingen/sfs/jfst/fst/ApplicableFST.java:175-177 | the legacy prefixSearch also begins at state 0 | start state 1 accepting, state 0 not accepting, prefix "": "" is not returned | begin at the start state | not executed | LegacySearch.PrefixSearchMissesStart | LegacySearch.PrefixSearchFromStart |
| src/main/java/de/tuebingen/sfs/jfst/alphabet/Alphabet.java:49-51 | contains(char) binary-searches a list ordered by a compareTo that is not antisymmetric between CharSymbol and MulticharSymbol | symbols 'a', "ab", "ac" and key 'a': the search answers absent | a present one-char symbol is found | not executed | LegacyAlphabet.CharSearchMisses | LegacyAlphabet.CorrectedCharSearchSpec |
| src/main/java/de/tuebingen/sfs/jfst/fst/MutableFSTOld.java:342-349 | addLiteralArc inserts at a binary-search position under the same compareTo | arc "ab" stored, then an arc reading 'a' is added: inSyms becomes "ab", "a" | inSyms stays in string order | not executed | LegacyMutable.InsertLiteralUnsorts | LegacyMutable.InsertLiteralCorrectedSorted |
| src/main/java/de/tuebingen/sfs/jfst/fst/CompactFST.java:524-572 | the state iterator sets t to the state's offset and then pre-increments, so it skips each state's first word; toId gives -1 for identity arcs | one state with words 1:1 to 0 and 3:3 to 0, identity id 3: only one arc is reported, with toId -1 | report every word with its real target, as CompactFST2 does | not executed | LegacyCompact.SkippingReportsLoseArcs | LegacyCompact.FullReportsRoundTrip |
