# kerncraft benchmark model: event scheduling and counter bookkeeping

This project models the pure and bookkeeping core of kerncraft's Benchmark
performance model (`kerncraft/models/benchmark.py`). It does not model the
part that builds and runs the kernel. The model covers:

- **Register descriptors.** `group_iterator` expands a bracket group such as
  `a-f` or `7-9ab` into characters. `register_options` expands a LIKWID
  register descriptor such as `CBOX[0-3]C[01]|PMC2` into the register names it
  denotes (modules `Registers`, `RegisterExamples`).
- **LIKWID event strings.** `eventstr` renders an event tuple
  `(event, register, parameters)` as `EVENT:REG:KEY=0x..:FLAG`, with parameters
  sorted by key and integers in Python `hex()` form. The model adds a parser
  for that string and proves the round trip. The `analyze` step joins the
  event strings of one run with commas to form a perfctr group (modules
  `EventStrings`, `EventStringExamples`).
- **Minimal runs.** `build_minimal_runs` removes duplicate events, then sweeps
  the events repeatedly. Each sweep opens a new run, and every unscheduled
  event takes the first of its registers still free in that run. The loops
  are modelled as imperative methods and proved equal to a functional greedy
  specification `Greedy`. Lemmas about `Greedy` prove the following:
  - every event is scheduled exactly once;
  - within a run no register is used twice, and every register is one its
    event allows;
  - an event placed in a later run found all of its registers taken in every
    earlier run;
  - there are never more runs than events;
  - when every descriptor is well formed, an event whose descriptor expands
    to nothing keeps the loop going forever (module `Scheduler`).
- **perfctr output parsing.** The loop that turns `likwid-perfctr` CSV output
  into a map from names to metrics or per-register counter maps. It follows
  Python's `int()` literally, including whitespace stripping, an optional
  sign and digit underscores. `float()` is a parameter. The uncaught
  `TypeError` of a counter line whose name already holds a metric is an
  explicit error (module `PerfctrOutput`).
- **The `analyze` merge and binding.** The per-run results are merged with
  `dict.update`, and each symbol is then bound to the value of the last of its
  candidate registers that was measured. The `KeyError`/`TypeError` cases are
  explicit errors (module `CounterBinding`).

Modules `Wrappers` (Option, Result) and `Strings` (`str.split`, `str.join` and
string order) hold shared definitions.

Every imperative method is proved against a specification function.

- `Scheduler.BuildMinimalRuns`, `Scheduler.FillRun` and
  `Scheduler.FreeRegister` are proved against `Greedy`, `Sweep` and
  `FirstFree`.
- `PerfctrOutput.ParseOutput` is proved against the fold `ParseLines`.
- `CounterBinding.MeasureRuns` is proved against `MeasureAll` and `Merged`.
- `CounterBinding.BindSymbols` and `CounterBinding.BindCandidates` are proved
  against `Bindings` and `Candidates`.

The properties of the source are then proved as lemmas about those functions.

## Model

| member | source | states |
|---|---|---|
| `Strings.Split` | kerncraft/models/benchmark.py:67 | `str.split(sep)`: at least one piece, no piece contains the separator, and joining the pieces with the separator gives back the input |
| `Strings.SplitJoin` | kerncraft/models/benchmark.py:67 | splitting a join of separator-free pieces gives back those pieces (round trip of `split`/`join`) |
| `Strings.SplitPrefix` | kerncraft/models/benchmark.py:67 | a separator-free prefix followed by the separator splits off as the first piece |
| `Strings.SplitPieceIn` | kerncraft/models/benchmark.py:67 | a character absent from the input is absent from every piece |
| `Strings.SplitNoSeparator` | kerncraft/models/benchmark.py:67 | a string without the separator splits into itself alone |
| `Strings.LessIrreflexive` | kerncraft/models/benchmark.py:108 | the key order used by `sorted` is irreflexive |
| `Strings.LessAsymmetric` | kerncraft/models/benchmark.py:108 | the key order is asymmetric |
| `Strings.LessTransitive` | kerncraft/models/benchmark.py:108 | the key order is transitive |
| `Strings.LessTotal` | kerncraft/models/benchmark.py:108 | any two distinct keys are ordered one way or the other, so sorting distinct keys is determined |
| `Registers.Alphabet` | kerncraft/models/benchmark.py:33 | definition of `ordered_chars = ascii_letters + digits` (a-z, then A-Z, then 0-9); `Registers.IndexOfAlphabet` states what `index` makes of it |
| `Registers.Index` | kerncraft/models/benchmark.py:39 | `ordered_chars.index(c)`: the position of the first occurrence of an alphanumeric character |
| `Registers.CharRange` | kerncraft/models/benchmark.py:37-38 | definition of the range token `x-y`: the alphabet slice from `x` to `y`; `Registers.CharRangeSpec` states its contents |
| `Registers.IndexOfAlphabet` | kerncraft/models/benchmark.py:33-39 | every alphabet character is alphanumeric and `index` finds it at its own position |
| `Registers.CharRangeSpec` | kerncraft/models/benchmark.py:37-40 | a range `x-y` yields exactly the characters from `x` to `y` in alphabet order, one per position, and nothing when `y` comes before `x` |
| `Registers.GroupChars` | kerncraft/models/benchmark.py:31-42 | definition of `group_iterator`: left to right, a range token before a single character, a newline yielding nothing; its lemmas follow |
| `Registers.GroupCharsLiteral` | kerncraft/models/benchmark.py:36-42 | a group without dashes or newlines yields its own characters |
| `Registers.GroupCharsAppend` | kerncraft/models/benchmark.py:36-42 | a dash-free prefix expands independently of what follows it, unless what follows starts with a dash |
| `Registers.FindClose` | kerncraft/models/benchmark.py:65 | the first `]` at or after a position, or none |
| `Registers.NextToken` | kerncraft/models/benchmark.py:64-73 | definition of `re.match` with the descriptor tokenizer; `Registers.NextTokenSpec` states what it matches |
| `Registers.Tokenizable` | kerncraft/models/benchmark.py:64-80 | definition of an alternative whose every token matches, so the recursion never reaches `m.group` on `None` |
| `Registers.ValidDescriptor` | kerncraft/models/benchmark.py:62-80 | definition of a descriptor that expands without raising: every alternative non-empty and tokenizable |
| `Registers.NextTokenSpec` | kerncraft/models/benchmark.py:65-73 | `re.match` of the descriptor tokenizer: a bracket group with a non-empty, `]`-free body takes precedence; otherwise one non-newline character; a newline matches nothing |
| `Registers.Cross` | kerncraft/models/benchmark.py:75-80 | the expansion of a token followed by the rest has as many names as the token's characters times the rest's expansions |
| `Registers.Prefixed` | kerncraft/models/benchmark.py:78 | definition of the inner `yield c + r` loop for one character `c`; its meaning is stated by `Registers.CrossAt` and `Registers.CrossMember` |
| `Registers.PrefixAll` | kerncraft/models/benchmark.py:75-80 | definition of a run of literal characters in front of the rest, used to state `Registers.AlternativeLiteralPrefix` |
| `Registers.CrossMember` | kerncraft/models/benchmark.py:75-80 | a name is produced exactly when its first character comes from the token and the remainder from the expansion of the rest |
| `Registers.CrossAt` | kerncraft/models/benchmark.py:75-80 | the expansion is row-major: character `i` followed by expansion `j` of the rest sits at position `i` times the number of rest expansions plus `j` |
| `Registers.Alternative` | kerncraft/models/benchmark.py:68-80 | definition of `register_options` on one alternative: the first token's characters, each followed by the rest's expansions |
| `Registers.Alternatives` | kerncraft/models/benchmark.py:67-80 | definition of the loop over the alternatives, expansions concatenated in order |
| `Registers.RegisterOptions` | kerncraft/models/benchmark.py:45-80 | definition of `register_options` for a well-formed descriptor; `Registers.RegisterOptionsMember` states which names it yields |
| `Registers.AlternativeDenotes` | kerncraft/models/benchmark.py:68-80 | a name is produced by an alternative exactly when it is denoted token by token |
| `Registers.AlternativesMember` | kerncraft/models/benchmark.py:67-80 | a name is produced by a list of alternatives exactly when one of them denotes it |
| `Registers.RegisterOptionsMember` | kerncraft/models/benchmark.py:45-80 | `register_options(d)` contains a name exactly when some alternative of `d` denotes it |
| `Registers.AlternativePlain` | kerncraft/models/benchmark.py:73-80 | an alternative without `[` produces only itself |
| `Registers.PlainTokenizable` | kerncraft/models/benchmark.py:65-73 | an alternative without `[` and newlines is matched token by token to its end |
| `Registers.AlternativesPlain` | kerncraft/models/benchmark.py:67-80 | alternatives without `[` produce themselves, in order |
| `Registers.RegisterOptionsPlain` | kerncraft/models/benchmark.py:45-80 | a descriptor without `[` expands to its alternatives as split on the bar; without a bar as well, to itself alone |
| `Registers.CrossEmpty` | kerncraft/models/benchmark.py:75-80 | a last token yields one one-character name per character it stands for, in order |
| `Registers.AlternativeLiteral` | kerncraft/models/benchmark.py:73-80 | a literal character in front of the rest is prepended to every expansion of the rest |
| `Registers.AlternativeLiteralPrefix` | kerncraft/models/benchmark.py:73-80 | a literal prefix without `[` in front of the rest is prepended to every expansion of the rest |
| `Registers.AlternativeGroup` | kerncraft/models/benchmark.py:70-80 | a bracket group in front of the rest yields the group's characters crossed with the rest |
| `Registers.RegisterOptionsSingle` | kerncraft/models/benchmark.py:45-80 | a descriptor without a bar expands as its one alternative |
| `Registers.FindCloseAt` | kerncraft/models/benchmark.py:65 | in a body followed by `]`, the first `]` is that one |
| `RegisterExamples.GroupRangeExample` | kerncraft/models/benchmark.py:24-25 | `a-f` yields `abcdef` |
| `RegisterExamples.GroupLiteralExample` | kerncraft/models/benchmark.py:26-27 | `148` yields `148` |
| `RegisterExamples.GroupMixedExample` | kerncraft/models/benchmark.py:28-29 | `7-9ab` yields `789ab` |
| `RegisterExamples.GroupReversedExample` | kerncraft/models/benchmark.py:30-31 | `0B-A1` yields `01` (the reversed range is empty) |
| `RegisterExamples.OptionsRangeExample` | kerncraft/models/benchmark.py:52-53 | `PMC[0-3]` expands to `PMC0` .. `PMC3` |
| `RegisterExamples.OptionsBoxExample` | kerncraft/models/benchmark.py:54-55 | `MBOX0C[01]` expands to `MBOX0C0`, `MBOX0C1` |
| `RegisterExamples.OptionsPlainExample` | kerncraft/models/benchmark.py:56-57 | `CBOX2C1` expands to itself alone |
| `RegisterExamples.OptionsTwoGroupsExample` | kerncraft/models/benchmark.py:58-59 | `CBOX[0-3]C[01]` expands to the eight names in row-major order |
| `RegisterExamples.OptionsAlternativesExample` | kerncraft/models/benchmark.py:60-61 | the alternatives `PMC[0-1]` and `PMC[23]`, separated by a bar, expand to `PMC0` .. `PMC3` |
| `RegisterExamples.OptionsPair` | kerncraft/models/benchmark.py:67-80 | a descriptor splitting into two alternatives expands to the first one's names, then the second one's |
| `RegisterExamples.OptionsEmptyExample` | kerncraft/models/benchmark.py:20-21 | a descriptor with a reversed range, `PMC[b-a]`, expands to nothing |
| `EventStrings.HexDigit` | kerncraft/models/benchmark.py:110 | the digit for a value below 16 is a lower-case hexadecimal character with that value |
| `EventStrings.HexDigits` | kerncraft/models/benchmark.py:110 | the digits of `hex()` for a positive number: non-empty, no leading zero, and their value is the number |
| `EventStrings.Hex` | kerncraft/models/benchmark.py:110 | `hex(v)` parses back to `v` (sign and `0x` prefix included) and contains neither `:` nor `=` |
| `EventStrings.DigitValue` | kerncraft/models/benchmark.py:110 | the value of a hexadecimal digit is below 16 |
| `EventStrings.LeastExists` | kerncraft/models/benchmark.py:108 | a non-empty set of keys has a least element |
| `EventStrings.LeastUnique` | kerncraft/models/benchmark.py:108 | the least key is unique |
| `EventStrings.SortedKeys` | kerncraft/models/benchmark.py:108 | `sorted(params)`: the keys of the parameter map, each exactly once, in strictly ascending order |
| `EventStrings.SortedKeysHead` | kerncraft/models/benchmark.py:108 | the first sorted key is the least key |
| `EventStrings.AscendingHead` | kerncraft/models/benchmark.py:108 | the head of an ascending list is its least element |
| `EventStrings.SortedKeysUnique` | kerncraft/models/benchmark.py:108 | any ascending list of exactly the keys is the sorted list |
| `EventStrings.RenderItems` | kerncraft/models/benchmark.py:108-111 | one item per key given |
| `EventStrings.Item` | kerncraft/models/benchmark.py:109-111 | definition of one item: `key=hex(v)` for an integer value, else the bare key; `EventStrings.ItemRoundTrip` reads it back |
| `EventStrings.ParamItems` | kerncraft/models/benchmark.py:107-111 | one item per parameter |
| `EventStrings.EventStringPlain` | kerncraft/models/benchmark.py:101-112 | without parameters, or with an empty map, the string is `EVENT:REG` |
| `EventStrings.EventStringWithParameters` | kerncraft/models/benchmark.py:101-112 | with parameters, the string is `EVENT:REG` followed by `:`-joined items in key order |
| `EventStrings.ItemRoundTrip` | kerncraft/models/benchmark.py:109-111 | a rendered item parses back to its key and value |
| `EventStrings.ParseRenderedPrefix` | kerncraft/models/benchmark.py:108-111 | reading back the first `j` rendered items gives exactly the first `j` keys, each with its value |
| `EventStrings.ParamItemsRoundTrip` | kerncraft/models/benchmark.py:107-111 | the items of a parameter map parse back to that map |
| `EventStrings.RenderedPlain` | kerncraft/models/benchmark.py:108-111 | no rendered item holds a `:` when no key does |
| `EventStrings.EventParts` | kerncraft/models/benchmark.py:101-112 | definition of the list `event_dscr` that is joined; `EventStrings.EventStringRoundTrip` states that the joined string gives the tuple back |
| `EventStrings.EventString` | kerncraft/models/benchmark.py:83-112 | definition of `eventstr`: the fields joined by `:`; `EventStrings.EventStringPlain`, `EventStrings.EventStringWithParameters` and `EventStrings.EventStringRoundTrip` state its form |
| `EventStrings.PartsPlain` | kerncraft/models/benchmark.py:101-112 | no joined field holds a `:` when event, register and keys hold none |
| `EventStrings.EventStringRoundTrip` | kerncraft/models/benchmark.py:83-112 | `eventstr` is injective on well-formed tuples: the string parses back to the tuple, with an empty map normalised to none |
| `EventStrings.GroupStringSplit` | kerncraft/models/benchmark.py:309 | the perfctr group of a run splits on `,` back into the event strings of the run, in order |
| `EventStringExamples.NoParametersExample` | kerncraft/models/benchmark.py:92-95 | `(L1D_REPLACEMENT, PMC0, None)` renders as `L1D_REPLACEMENT:PMC0` |
| `EventStringExamples.ThresholdHex` | kerncraft/models/benchmark.py:96-97 | `hex(2342)` is `0x926` |
| `EventStringExamples.ParametersOrder` | kerncraft/models/benchmark.py:96-97 | the keys `EDGEDETECT` and `THRESHOLD` sort in that order |
| `EventStringExamples.ParametersJoin` | kerncraft/models/benchmark.py:96-97 | joining the example's pieces gives the documented string |
| `EventStringExamples.ThresholdItems` | kerncraft/models/benchmark.py:96-97 | the example's items are `EDGEDETECT` and `THRESHOLD=0x926` |
| `EventStringExamples.RenderedThreshold` | kerncraft/models/benchmark.py:96-97 | with the example's items, the string is `EVENT:REG:EDGEDETECT:THRESHOLD=0x926` |
| `EventStringExamples.ParametersExample` | kerncraft/models/benchmark.py:96-97 | the example tuple renders as `MEM_UOPS_RETIRED_LOADS:PMC3:EDGEDETECT:THRESHOLD=0x926` |
| `Scheduler.FirstIndex` | kerncraft/models/benchmark.py:118 | `events.index(e)`: the position of the first occurrence |
| `Scheduler.Dedupe` | kerncraft/models/benchmark.py:118 | duplicate elimination keeps exactly the elements of the input, each once |
| `Scheduler.DedupeOrder` | kerncraft/models/benchmark.py:118 | duplicate elimination keeps the order of first occurrences |
| `Scheduler.FirstOccurrenceUnique` | kerncraft/models/benchmark.py:118 | the first occurrence of an element is unique |
| `Scheduler.FirstIndexPrefix` | kerncraft/models/benchmark.py:118 | appending an element does not move the first occurrence of elements already present |
| `Scheduler.DedupeDistinct` | kerncraft/models/benchmark.py:118 | duplicate elimination leaves a duplicate-free list unchanged (it is idempotent) |
| `Scheduler.Range` | kerncraft/models/benchmark.py:124 | the set of event positions `0..n-1`, of size `n` |
| `Scheduler.SubsetCard` | kerncraft/models/benchmark.py:124 | a subset of the same size as its superset is the superset, which is the `len(scheduled) != len(events)` exit test |
| `Scheduler.SlotRegisters` | kerncraft/models/benchmark.py:134 | definition of the keys of a run's dict `s`; `Scheduler.RenderedRegisters` ties it to the rendered run and `Scheduler.GreedyRegisters` proves its entries distinct |
| `Scheduler.Options` | kerncraft/models/benchmark.py:131 | definition of the candidate registers of an event; `Registers.RegisterOptionsMember` states which they are |
| `Scheduler.FirstFree` | kerncraft/models/benchmark.py:131-138 | definition of the candidate loop with its `break`; `Scheduler.FirstFreeSpec` states its result |
| `Scheduler.FirstFreeSpec` | kerncraft/models/benchmark.py:131-138 | the candidate loop finds nothing exactly when every candidate is in use, else the first candidate not in use |
| `Scheduler.CountBelow` | kerncraft/models/benchmark.py:125-138 | the number of placements before a given event is at most the run's size |
| `Scheduler.Sweep` | kerncraft/models/benchmark.py:125-138 | definition of one pass of the `for` loop from a given event on; `Scheduler.SweepKeeps` and `Scheduler.SweepProgress` state what it does |
| `Scheduler.SweepKeeps` | kerncraft/models/benchmark.py:125-138 | one sweep keeps its invariant: placements in event order, each at its first free register, every skipped event blocked |
| `Scheduler.SweepFromStart` | kerncraft/models/benchmark.py:125-138 | a sweep started on an empty run satisfies that invariant at its end |
| `Scheduler.SweepProgress` | kerncraft/models/benchmark.py:124-139 | while events remain and each has a register, a sweep schedules at least one more event and opens a non-empty run |
| `Scheduler.GreedyStep` | kerncraft/models/benchmark.py:124-139 | one outer iteration: the new run's events are added to the scheduled set, the run is well-formed and blocks every event left over |
| `Scheduler.Greedy` | kerncraft/models/benchmark.py:124-139 | definition of the `while` loop as repeated sweeps until every event is scheduled; the `Greedy` lemmas below state its properties |
| `Scheduler.GreedyShape` | kerncraft/models/benchmark.py:121-142 | there are at most as many runs as unscheduled events, and every run is non-empty, in event order and first-fit |
| `Scheduler.FirstFitDistinct` | kerncraft/models/benchmark.py:133-135 | a run never holds the same register twice |
| `Scheduler.FirstFitOptions` | kerncraft/models/benchmark.py:131-135 | every placed register is one the event's descriptor allows |
| `Scheduler.GreedyRegisters` | kerncraft/models/benchmark.py:121-142 | in every run the registers are distinct and allowed by their events |
| `Scheduler.OnceEachCons` | kerncraft/models/benchmark.py:127-137 | a run whose events are all newly scheduled, put in front of runs of other events, keeps every event at most once |
| `Scheduler.GreedyOnce` | kerncraft/models/benchmark.py:121-142 | no event appears twice across all runs |
| `Scheduler.GreedyCovers` | kerncraft/models/benchmark.py:121-142 | every event is scheduled in some run |
| `Scheduler.BlockedCons` | kerncraft/models/benchmark.py:124-139 | a run that blocked every event left after it, put in front of runs of those events, keeps every later event blocked in every earlier run |
| `Scheduler.GreedyBlocked` | kerncraft/models/benchmark.py:121-142 | an event in a later run found all of its registers taken in every earlier run |
| `Scheduler.SweepPassesOver` | kerncraft/models/benchmark.py:131 | an event with no candidate registers is never scheduled by a sweep |
| `Scheduler.SweepBounded` | kerncraft/models/benchmark.py:124-139 | a sweep schedules only positions of the event list |
| `Scheduler.NoCandidatesNoEnd` | kerncraft/models/benchmark.py:124-139 | when every descriptor is well formed and one event's descriptor expands to no register, after any number of sweeps that event is still unscheduled, so the loop condition stays true |
| `Scheduler.Entry` | kerncraft/models/benchmark.py:135 | definition of the stored tuple `(event, possible_reg, parameters)`; `Scheduler.RenderAppend` states how placing a slot adds it |
| `Scheduler.RenderRun` | kerncraft/models/benchmark.py:142 | definition of `list(v.values())` for one run; `Scheduler.RenderedRegisters` and `Scheduler.RenderedShape` state its keys and shape |
| `Scheduler.RenderRuns` | kerncraft/models/benchmark.py:142 | definition of the collapse of all register dicts; `Scheduler.RenderClose` and `Scheduler.BuildMinimalRuns` state what it holds |
| `Scheduler.RenderedRegisters` | kerncraft/models/benchmark.py:134-135 | the registers of a rendered run are the registers placed |
| `Scheduler.GreedyUnfold` | kerncraft/models/benchmark.py:124-139 | the runs are the first sweep's run followed by the runs of the remaining events |
| `Scheduler.DedupeSchedulable` | kerncraft/models/benchmark.py:118 | after duplicate elimination every event still has a candidate register and events are distinct |
| `Scheduler.TracksAdd` | kerncraft/models/benchmark.py:137 | appending a newly scheduled event keeps `scheduled_events` equal to the scheduled positions |
| `Scheduler.RenderAppend` | kerncraft/models/benchmark.py:135 | adding a placement to the current run adds one rendered tuple |
| `Scheduler.RenderClose` | kerncraft/models/benchmark.py:139-142 | closing the current run appends its rendering to the runs |
| `Scheduler.FreeRegister` | kerncraft/models/benchmark.py:131-138 | the candidate loop with its `break` returns the first candidate not yet in the run |
| `Scheduler.FillSlot` | kerncraft/models/benchmark.py:127-138 | one turn of the `for` loop: a scheduled event, or one with no free candidate, leaves the state unchanged; otherwise the event is scheduled at its first free candidate, and the run's dict gains that entry |
| `Scheduler.FillRun` | kerncraft/models/benchmark.py:125-139 | one sweep of the `for` loop appends exactly the specified run and records exactly the events it placed |
| `Scheduler.GreedyNext` | kerncraft/models/benchmark.py:124-139 | one turn of the `while` loop appends the next greedy run and schedules at least one more event |
| `Scheduler.RenderedShape` | kerncraft/models/benchmark.py:121-144 | every greedy run renders to a non-empty dict with distinct registers, and there are at most as many runs as events |
| `Scheduler.BuildMinimalRuns` | kerncraft/models/benchmark.py:115-144 | the result is the greedy schedule of the deduplicated events, at most one run per event, each run non-empty with distinct registers |
| `PerfctrOutput.TrimStart` | kerncraft/models/benchmark.py:254 | `int()` whitespace stripping on the left: a suffix of the input that does not start with Python whitespace |
| `PerfctrOutput.TrimEnd` | kerncraft/models/benchmark.py:254 | stripping on the right: a prefix of the input that does not end with Python whitespace |
| `PerfctrOutput.IsSpace` | kerncraft/models/benchmark.py:254 | definition of the whitespace `int()` strips, ASCII and non-ASCII |
| `PerfctrOutput.Strip` | kerncraft/models/benchmark.py:254 | definition of the stripping `int()` does; `PerfctrOutput.StripPadded` states that it removes exactly the padding |
| `PerfctrOutput.ParseInt` | kerncraft/models/benchmark.py:254 | definition of `int()` on text, `None` where it raises `ValueError`; `PerfctrOutput.IntStringRoundTrip` and `PerfctrOutput.ParseIntPadded` state its behaviour |
| `PerfctrOutput.ParseStripped` | kerncraft/models/benchmark.py:254 | definition of `int()` after stripping: an optional sign, then digits with single underscores between them |
| `PerfctrOutput.NatString` | kerncraft/models/benchmark.py:254 | a decimal numeral is non-empty and all digits |
| `PerfctrOutput.NatStringValue` | kerncraft/models/benchmark.py:254 | a decimal numeral is a valid `int()` literal with its value |
| `PerfctrOutput.IntStringRoundTrip` | kerncraft/models/benchmark.py:254 | `int(str(n)) == n` for every integer |
| `PerfctrOutput.NegativeString` | kerncraft/models/benchmark.py:254 | a minus sign followed by a decimal numeral is read as the negative value |
| `PerfctrOutput.ParseIntPadded` | kerncraft/models/benchmark.py:254 | `int()` ignores surrounding whitespace |
| `PerfctrOutput.StripPadded` | kerncraft/models/benchmark.py:254 | stripping removes exactly the surrounding whitespace |
| `PerfctrOutput.TrimStartSpaces` | kerncraft/models/benchmark.py:254 | leading whitespace is removed exactly |
| `PerfctrOutput.TrimEndSpaces` | kerncraft/models/benchmark.py:254 | trailing whitespace is removed exactly |
| `PerfctrOutput.ParseLine` | kerncraft/models/benchmark.py:242-259 | the body of the parse loop, for one line, computes the specified step or the uncaught error |
| `PerfctrOutput.CountLine` | kerncraft/models/benchmark.py:252-259 | the counter half of the loop body creates the event's dictionary if missing and stores the integer under the register, or fails when the event already holds a float |
| `PerfctrOutput.MetricStep` | kerncraft/models/benchmark.py:244-251 | definition of the metric half of the loop body: store `float(field 1)` under field 0, skip on `ValueError` |
| `PerfctrOutput.CounterStep` | kerncraft/models/benchmark.py:252-259 | definition of the counter half: `setdefault` and store `int(field 2)`, the `TypeError` on a float as an error |
| `PerfctrOutput.Step` | kerncraft/models/benchmark.py:241-259 | definition of one loop turn; the `Step` lemmas below state each case |
| `PerfctrOutput.ParseLines` | kerncraft/models/benchmark.py:240-259 | definition of the loop as a fold that stops at the first uncaught error; `PerfctrOutput.ParseOutput` computes it |
| `PerfctrOutput.ParseOutput` | kerncraft/models/benchmark.py:240-261 | the parse loop over the output lines computes the specified fold, or the uncaught error |
| `PerfctrOutput.StepNoComma` | kerncraft/models/benchmark.py:249-251 | a line without a comma leaves the results unchanged |
| `PerfctrOutput.StepMetric` | kerncraft/models/benchmark.py:244-257 | a line whose second field is a float stores it as a metric, except that a counter-shaped line then raises the uncaught `TypeError` |
| `PerfctrOutput.StepCounter` | kerncraft/models/benchmark.py:252-257 | a counter line adds its register value to the event's map, creating it if absent, and raises if the name holds a metric |
| `PerfctrOutput.StepIgnored` | kerncraft/models/benchmark.py:246-259 | a line that is neither a metric nor a counter line leaves the results unchanged |
| `PerfctrOutput.StepFrame` | kerncraft/models/benchmark.py:240-259 | a line changes at most the entry named by its first field and removes nothing |
| `PerfctrOutput.ParseLinesAppend` | kerncraft/models/benchmark.py:241-259 | parsing two blocks of lines is parsing the first and continuing with the second, and an error stops the parse |
| `PerfctrOutput.ParseLinesKeys` | kerncraft/models/benchmark.py:240-261 | keys are never removed, each new key is the first field of some line, and an entry no line names is untouched |
| `PerfctrOutput.ParseLinesFailure` | kerncraft/models/benchmark.py:252-257 | a failed parse is caused by a counter-shaped line naming the failing entry |
| `CounterBinding.LastWith` | kerncraft/models/benchmark.py:312 | the last run result holding a key |
| `CounterBinding.Merged` | kerncraft/models/benchmark.py:307-312 | definition of repeated `measured_ctrs.update(r)`; `CounterBinding.MergedSpec` states its keys and values |
| `CounterBinding.MergedSpec` | kerncraft/models/benchmark.py:307-312 | the merged map has exactly the keys of the run results, each with the value from the last run holding it (shallow `dict.update`) |
| `CounterBinding.MergedSnoc` | kerncraft/models/benchmark.py:312 | merging one more run result updates the merged map with it |
| `CounterBinding.MeasureAll` | kerncraft/models/benchmark.py:307-311 | definition of measuring the runs' comma-joined event strings in order, stopping at the first error; `CounterBinding.MeasureAllSpec` states its result |
| `CounterBinding.MeasureAllSpec` | kerncraft/models/benchmark.py:307-311 | measuring succeeds exactly when every run does, with one result per run in run order; a failure carries the error of the first failing run |
| `CounterBinding.MeasurePrefixFails` | kerncraft/models/benchmark.py:307-311 | a run whose measurement raises ends the whole loop with that error |
| `CounterBinding.MeasureRuns` | kerncraft/models/benchmark.py:307-312 | the run loop keeps the raw results of all runs in order and merges them with `update`, or stops with the error of the run whose measurement raised |
| `CounterBinding.LastPresent` | kerncraft/models/benchmark.py:316-319 | definition of the candidate loop without `break`; `CounterBinding.LastPresentSpec` states its result |
| `CounterBinding.LastPresentSpec` | kerncraft/models/benchmark.py:317-319 | the candidate loop binds nothing exactly when no candidate was measured, else the value of the last measured candidate |
| `CounterBinding.LastWins` | kerncraft/models/benchmark.py:317-319 | with two measured candidates the second one's value is bound |
| `CounterBinding.Candidates` | kerncraft/models/benchmark.py:316-319 | definition of the candidate loop with its `KeyError` and `TypeError` on the first turn; `CounterBinding.BindCandidates` computes it |
| `CounterBinding.BindSymbol` | kerncraft/models/benchmark.py:315-319 | definition of one turn of the symbol loop: the candidates are the descriptor's expansions |
| `CounterBinding.Rebind` | kerncraft/models/benchmark.py:318-319 | definition of the assignment `event_counter_results[sym] = ...`, skipped when no candidate was measured |
| `CounterBinding.Bindings` | kerncraft/models/benchmark.py:314-319 | definition of the symbol loop as a fold that stops at the first error; `CounterBinding.BindSymbols` computes it |
| `CounterBinding.BindCandidates` | kerncraft/models/benchmark.py:316-319 | the candidate loop for one symbol computes the specified binding or error |
| `CounterBinding.BindSymbols` | kerncraft/models/benchmark.py:314-319 | the loop over all symbols computes the specified bindings or the first error; with distinct symbol names, each symbol ends bound as its own candidate loop measured it |
| `CounterBinding.BindUnmeasured` | kerncraft/models/benchmark.py:317-319 | a symbol none of whose registers was measured stays unbound |
| `CounterBinding.BindMeasured` | kerncraft/models/benchmark.py:315-319 | when some candidate register of the symbol's event was measured, binding succeeds and sets that symbol, and only it, to the counter of the last measured candidate |
| `CounterBinding.BindingsFailure` | kerncraft/models/benchmark.py:315-319 | a failed binding comes from a symbol whose event was not measured or holds a metric, and whose descriptor has candidates |
| `CounterBinding.BindingsFrame` | kerncraft/models/benchmark.py:314-319 | the symbol loop leaves every name that is not one of its symbols as it was |
| `CounterBinding.BindSymbolBound` | kerncraft/models/benchmark.py:316-319 | one turn binds its symbol to the last measured candidate, or leaves it as it was when none was measured |
| `CounterBinding.BindSymbolOther` | kerncraft/models/benchmark.py:316-319 | one turn changes no other symbol |
| `CounterBinding.BindingsAt` | kerncraft/models/benchmark.py:314-319 | with distinct symbol names, after the whole loop each symbol holds what its own candidate loop bound |
| `CounterBinding.BindingsFinal` | kerncraft/models/benchmark.py:314-319 | `event_counter_results` after the loop: a symbol with candidate registers is bound exactly when one of them was measured for its event, to the counter of the last one measured; a symbol without candidates is unbound |

## Left out

- Building and running the kernel (`Benchmark.__init__`, the `perfctr` process call, the runtime calibration loop, the ECM/phenomenological computations, `report` and `configure_arggroup`) and `get-iaca.py`. These are I/O, process control and floating-point arithmetic.
- `float()` is a parameter of `PerfctrOutput.ParseOutput` (`asFloat`), because the model has no floating point. Running `likwid-perfctr` on a group and parsing its output is a parameter of `CounterBinding.MeasureRuns` (`measure`), which may fail with the parse error, as `PerfctrOutput.ParseOutput` does.
- `raw_results` starting with the calibration run's result is not modelled. `CounterBinding.MeasureRuns` returns only the per-run results, and `measured_ctrs` in the source never holds the calibration result either.
- Python generators are lazy: `register_options` raises on an unmatchable alternative only when the consumer reaches it. The model requires well-formed descriptors (`Registers.ValidDescriptor`) instead. This precondition excludes the empty descriptor, for which the source yields `None` and then raises.
- `eventstr` called with keyword arguments and no tuple is not modelled: with `event_tuple=None` the `len()` call raises. The two-element tuple is modelled as a tuple whose parameters are absent.
- `Scheduler.BuildMinimalRuns` does not model two-element event tuples, on which the unpacking `event, registers, parameters = event_tpl` raises `ValueError`: the model's tuple with absent parameters is scheduled like a three-element tuple with `None` parameters, since the two share one representation.
- `Scheduler.BuildMinimalRuns` excludes the empty descriptor. Inside `build_minimal_runs` the source does not raise on it: the first candidate the generator yields is `None`, the `break` stops the generator before it raises, and the event is scheduled under register `None`. A second such event in the same run finds `None` taken, so the generator goes on and raises `AttributeError`.
- Parameter values other than integers (booleans, strings) render as the bare key. The model gives them as `None`, and only integers carry a value. This also changes event equality: `Scheduler.Dedupe` merges two events that differ only in a non-integer parameter value, which `events.index(e) == i` keeps apart.
- `int()` accepts non-ASCII decimal digits and rejects literals longer than 4300 digits. The model accepts only ASCII digits and has no length limit.
- Dicts are modelled by their insertion order. `scheduled_runs` is a sequence of runs indexed by run number, and each run's register dict is a sequence of placements in insertion order. `event_counters` is a sequence of `(symbol, event tuple)` pairs in dict order.
- `Scheduler.FillRun`: `scheduled_runs.setdefault(cur_run, {})` is performed once per event that has candidates, before its candidate loop rather than at each iteration, which has the same effect on the dict.
- `Scheduler.BuildMinimalRuns`: the method requires every descriptor to be well formed and to expand to at least one register. The source raises on a malformed descriptor (for example `"\n"`, where `re.match` finds nothing and `.group` raises `AttributeError`). When every descriptor is well formed and one expands to nothing, the source loops forever; `Scheduler.NoCandidatesNoEnd` states this non-termination.
- A scheduling that cannot complete and a counter that was not measured have no named errors. The source loops forever in the first case and raises `KeyError` or `TypeError` in the second, and the model follows the source (`CounterBinding.BindError`).
