# A verified model of the fuzzer's core

This project models, in Dafny, the parts of a smart-contract fuzzer that must be exactly right
for its results to mean anything, and proves what they promise for all inputs and all runs.

- **ABI values** (`Words`, `Pieces`, `AbiCodec`, `AbiLayout`, `AbiGaps`, `AbiRoundTrip`,
  `AbiGapFailures`, `AbiLuckyGap`, `AbiWords`, `AbiMarks`, `AbiLoops`, `AbiMutation`): the value
  tree, the head/tail encoder, the decoder that uses a value as its template, the per-word type map
  and the in-place mutator. `AbiCodec` holds the specification, `AbiLoops` the program's loops
  proved against it, `AbiWords` what every word and every byte of it is. The layout is that of the
  Solidity Contract ABI Specification, section "Formal Specification of the Encoding", with `bytesN`
  padded on the left as the program does.
- **Type names** (`Text`, `TypeNames`, `AbiTypeParser`): from a contract's JSON interface to type
  names and from type names to default values.
- **Swaps** (`UniswapMath`, `UniswapPaths`, `SplitLaw`, `UniswapWidth`, `Liquidation`,
  `FlashloanOracle`): constant-product arithmetic, routes over a shared reserve map, the law that
  splitting a sale yields no more, 256-bit width, the exhaustive liquidation search and the
  oracle's accounting.
- **Route discovery** (`RouteCrawl`, `RouteSearch`): the crawl that builds the pool graph and the
  depth-first search over it.
- **Snapshots** (`InfantCorpus`, `SnapshotTrace`, `PrunedRun`, `ReplayFile`): the snapshot corpus
  with its voting scheduler, the back-pointers between snapshots, and the replay file.
- **Bytecode** (`Bytecode`, `SourceMap`): three loops over EVM code and the source-map decoder.

`dafny verify dfyconfig.toml` checks the whole project.

What the proofs found out about the program:

- Decoding succeeds if and only if the receiver has a template wherever the value has an element
  (`RoundTrip`): a receiver whose list was emptied by the mutator panics on a non-empty list
  (`EmptiedListLosesItsTemplate`).
- A zero-length fixed array, a gap, gets a head slot that `head_size` does not count and the
  decoder's cursor does not pass. A gap harms data behind it at the same level, and every dynamic
  member beside it, before or behind; otherwise it does no harm. For types without dynamic tuples
  inside tuples this is exact (`RoundTripsIffSane`). With them the harmless direction still holds
  (`RoundTrip`), but the other does not: `LuckyRoundTrips` gives a type with a dynamic tuple beside a
  gap in which two wrong offsets add up to the right place for every value, so there the condition
  is sufficient and not necessary.
- `process_input` panics exactly on fixed-length arrays of tuples (`ProcessInputPrints`).
- With a liquidation percentage strictly between 0 and 10 the oracle's write-back can lose gains;
  `CallBalance` is the exact law up to wrap-around, `ConservedIff` says when nothing is lost. Above
  10, which a replay line can carry, more is sent than was gained and the rest wraps (`DoubleSent`).
- Clamping a sale to 128 bits breaks the law that splitting a sale yields no more. The law holds,
  over all reserves, if and only if the pair keeps the whole sale as its fee, one of the two parts is
  zero, or their sum is at most 2^128 - 1 (`SplitLaw.HoldsIff`); otherwise `BetrayingReserves`
  computes reserves at which the parts pay more.
- When an ancestor was pruned, a printed trace loses not only what led to that ancestor but also
  the transaction run on it (`PrintedIsSuffix`). `FirstSnapshotLost` is such a campaign: visiting
  the first snapshot lowers its score, so the 501st snapshot prunes it, and of an input still bound
  to it nothing but the error line is printed.
- The record of a transaction leaves out the block environment it ran in, which the mutator changes
  (src/evm/input.rs:464-469) and the machine reads (src/evm/vm.rs:344). So a replay need not
  reproduce a snapshot: runs that differ only in environments are printed alike
  (`EnvironmentNotPrinted`), and on a machine that records its environments the replay is right if
  and only if every transaction ran in the one the reader builds (`LogReplaysIff`). In that case it is
  right on every machine (`ReplayReproducesSnapshot`).
- An incomplete first source-map entry contributes nothing, not even the columns it has
  (`IncompleteFirstEntryIsLost`); `MeantIff` says exactly when that matters.
- A token refused at the crawl's depth limit stays marked as known and is not expanded when it is
  met again nearer to the start (`NearTokenMissed`). The crawl misses nothing if and only if it
  refuses nothing (`NothingMissedIff`); and it refuses nothing, in whatever order the node lists the
  pools, if and only if no walk without repeats is longer than the limit (`ShallowIff`).

Conventions. Integers are unbounded except where a width is named; the target's `usize` has 64
bits, and the operators of the 256-bit integers wrap around. A panic is `None`, `Panicked` or a false `ok`. Random numbers, the virtual machine, pool
queries and the fuzzing library's byte mutators are parameters. Scores and sampling thresholds,
`f64` in the program, are exact reals. The corpus is the variant without `full_trace`, the one
that removes pruned snapshots. Hash maps are visited in an arbitrary order.

## Model

| member | source | states |
|---|---|---|
| `Words.Roundup` | src/evm/abi.rs:46-48 | The result is the multiple of 32 in `[x, x + 32)`. |
| `Words.SizeWordReadBack` | src/evm/abi.rs:54-71 | A 32-byte size word is read back as the same number, whatever follows it. |
| `Words.BigEndianDigit` | src/evm/abi.rs:54-62 | Byte `j` of a number written in `w` bytes is its digit of weight 256^(w-1-j). |
| `Words.SetSize` | src/evm/abi.rs:54-62 | The loop writes the big-endian size word into the first 32 bytes and leaves the rest of the buffer alone. |
| `Words.GetSize` | src/evm/abi.rs:64-71 | The loop reads the big-endian value of the first 32 bytes, truncated to a 64-bit `usize`. |
| `AbiLoops.GetBytes` | src/evm/abi.rs:634-647 | The buffer-filling loops, for words, byte strings and arrays, produce exactly the specified encoding. |
| `AbiLoops.ArrayBytes` | src/evm/abi.rs:917-977 | Head and tail collection, running tail offsets and the two copy loops give length word, head slots and tails in order. |
| `AbiLoops.GetBasicTypes` | src/evm/abi.rs:835-915 | The flag loops produce exactly the specified type map, one flag per word of the encoding. |
| `AbiLoops.SetBytes` | src/evm/abi.rs:996-1027 | The decoding loop, with its head cursor, computes the specified decoding and panics exactly where that is undefined. |
| `AbiLoops.ResizeItems` | src/evm/abi.rs:996-1027 | The push and truncate steps give the receiver's items, cut or extended by copies of its first item. |
| `AbiMarks.DecodeKeeps` | src/evm/abi.rs:657-660 | For any receiver and bytes: decoding keeps shape, widths and marks, `dont_mutate` among them, of the template that each item is read into, the first one beyond the receiver's own. |
| `AbiMarks.LeafRead` | src/evm/abi.rs:771-777 | Which bytes a word and a byte string are read from, and that they panic only if these are missing. |
| `AbiLayout.OneTypePerWord` | src/evm/abi.rs:835-977 | For every type, gaps included, the encoding has exactly 32 bytes per type-map entry, and so has the encoding of every child. |
| `AbiLayout.EmptyIsGap` | src/evm/abi.rs:917-977 | An encoding is empty if and only if the value is a gap. |
| `AbiLayout.ChildTypesAt` | src/evm/abi.rs:835-915 | Each child's own type map stands where its encoding is, and the head slot of each non-static child and of each gap is marked as an offset. |
| `AbiLayout.OffsetWordsExact` | src/evm/abi.rs:835-915 | A word is marked `TvOffset` if and only if it is the head slot of a non-static child or of a gap, at this or any deeper level. |
| `AbiLayout.OffsetPointsAtChild` | src/evm/abi.rs:917-977 | The number stored in such a slot, past the length word if any, is the byte position at which that child's encoding starts. |
| `AbiLayout.WordsAndBytes` | src/evm/abi.rs:835-977 | Word positions in the type map and byte positions in the encoding differ by the factor 32. |
| `AbiWords.WordPlaces` | src/evm/abi.rs:917-977 | The word index of every head slot and of every child, as sums of sizes: after the length word the heads in order, then the tails of the children that are not static. |
| `AbiWords.SizeLaws` | src/evm/abi.rs:1195-1202 | What `get_size` counts: words, byte strings without padding, arrays item by item, with length words and without offsets. |
| `AbiWords.FlagIff` | src/evm/abi.rs:614-632 | The entry of every word, at every depth: by the type for a word (address, bytes or number of its width), length, offset, or as many bytes of a byte string as the word holds. |
| `AbiWords.ByteIff` | src/evm/abi.rs:634-750 | Every byte of the encoding, at every depth: a byte of the data, a digit of a length or an offset, and zero everywhere else. |
| `AbiGaps.Geometry` | src/evm/abi.rs:826-833 | Whether a value is static, its `get_size` and the room of its head slot depend only on its type, with gaps anywhere. |
| `AbiGaps.TypeSizes` | src/evm/abi.rs:1195-1202 | The decoder's cursor falls short of the head slot exactly on static types with a gap in them, and stays put exactly on types without data. |
| `AbiGaps.OffsetExactIff` | src/evm/abi.rs:917-977 | The number in an offset slot is the byte position of its child if and only if no child is a gap. |
| `AbiRoundTrip.RoundTrip` | src/evm/abi.rs:917-1027 | For every type whose gaps do no harm, every value, receiver of that type and buffer that starts with the value's encoding: decoding succeeds if and only if the receiver fits, and then carries the value's data. |
| `AbiGapFailures.InsaneMisreads` | src/evm/abi.rs:945-1027 | A type with a harmful gap, and no dynamic tuple inside a tuple, has a value that does not read itself back, whatever bytes follow it. |
| `AbiGapFailures.RoundTripsIffSane` | src/evm/abi.rs:917-1027 | Such a type round-trips, for all values, receivers and trailing bytes, if and only if its gaps do no harm. |
| `AbiLuckyGap.LuckyRoundTrips` | src/evm/abi.rs:917-1027 | A type with a dynamic tuple beside a gap of which every value reads back all the same. |
| `AbiRoundTrip.NoEmptyListFits` | src/evm/abi.rs:996-1027 | A receiver without empty dynamic arrays fits every value of its type. |
| `AbiRoundTrip.SameContentSameBytes` | src/evm/abi.rs:917-977 | Values with the same data have the same encoding and the same type map. |
| `AbiRoundTrip.DecodeThenEncode` | src/gpu_stage.rs:435-441 | For the same types: decoding a value's calldata into a fitting receiver and encoding again gives the same bytes and the same types. |
| `AbiRoundTrip.EmptiedListLosesItsTemplate` | src/evm/abi.rs:996-1027 | An emptied word list cannot take a one-element list back. |
| `AbiRoundTrip.ZeroLengthArrayBreaksRoundTrip` | src/evm/abi.rs:940-950 | With a zero-length fixed array in front, a word reads back as 32, whatever it was. |
| `AbiMutation.MutateValue` | src/evm/abi.rs:398-518 | The mutator's branches and its cloning loop compute the specified mutation. |
| `AbiMutation.MutationRunKeepsType` | src/evm/abi.rs:398-518 | Any sequence of mutations, for any random streams, keeps a value inside its type. |
| `AbiMutation.MutationRunKeepsBound` | src/evm/abi.rs:398-518 | Over any run every dynamic array comes from a dynamic array of the starting value, is at most the larger of that one's length and `2 * max_size - 2`, and its items come from that one's items; every word comes from a word with the same marks, and is unchanged if it is marked `dont_mutate`. |
| `AbiMutation.MutateDescends` | src/evm/abi.rs:398-518 | The same for one mutation: nothing appears that is not descended from the same place of the value before. |
| `AbiMutation.ListMutation` | src/evm/abi.rs:460-487 | One element changes, or copies of the first are appended, how many of them, or one element goes, by the roll. |
| `AbiMutation.FixedMutation` | src/evm/abi.rs:488-491 | Of a fixed array exactly the element drawn is mutated. |
| `AbiMutation.WordMutation` | src/evm/abi.rs:418-435 | A word that must not be mutated is unchanged; an address becomes one of the pool nine times in ten and zero otherwise. |
| `AbiMutation.BoundIsReached` | src/evm/abi.rs:398-518 | That bound is attained. |
| `AbiMutation.MutantReadsItself` | src/evm/abi.rs:398-518 | After any run of mutations the value still decodes its own calldata. |
| `AbiMutation.BoxedAbi.WriteBack` | src/gpu_stage.rs:435-441 | Writing calldata of the type back in place leaves an object whose calldata and types are those written. |
| `AbiMutation.BoxedAbi.SetBytes` | src/evm/abi.rs:292-295 | Decodes in place after the four selector bytes; the selector stays. |
| `AbiMutation.BoxedAbi.MutateWithVmSlots` | src/evm/abi.rs:398-518 | Replaces the value in place by its mutation; the selector stays. |
| `TypeNames.SplitWithParenthesis` | src/evm/abi.rs:1285-1304 | The loop with its parenthesis counter cuts the text at exactly the commas at depth zero. |
| `TypeNames.JoinSplit` | src/evm/abi.rs:1285-1304 | Joining the pieces with commas always gives the text back. |
| `TypeNames.SplitJoinIff` | src/evm/abi.rs:1285-1304 | Splitting a joined list gives the list if and only if no piece has a top-level comma and every piece but the last has balanced counts. |
| `AbiTypeParser.ProcessInputPrints` | src/evm/contract_utils.rs:65-86 | On the description of any type `process_input` gives its name, and panics if and only if a fixed-length array has tuples inside. |
| `AbiTypeParser.ArgumentsName` | src/evm/contract_utils.rs:98-110 | The loop over a function's inputs gives the parenthesized list of their names. |
| `AbiTypeParser.ParserInvertsPrinter` | src/evm/abi.rs:1315-1438 | Parsing the name of any type gives that type's default value. |
| `AbiTypeParser.UintName` | src/evm/abi.rs:1406-1409 | `uintN` for every `N`: zeros of `N / 8` bytes, the panic for a width that is not a positive number of whole bytes. |
| `AbiTypeParser.IntName` | src/evm/abi.rs:1410-1413 | The same for `intN`. |
| `AbiTypeParser.BytesName` | src/evm/abi.rs:1422-1430 | `bytesN` is a word of `N` zero bytes marked as bytes. |
| `AbiTypeParser.WordNames` | src/evm/abi.rs:1379-1396 | `uint` and `int` have 32 bytes, `bool` one. |
| `AbiTypeParser.OtherNames` | src/evm/abi.rs:1385-1404 | `address`, `bytes`, `string` and the empty tuple. |
| `AbiTypeParser.DefaultHasTypeIff` | src/evm/abi.rs:1315-1438 | That value has exactly one element in every dynamic array, and has the type if and only if there is no empty tuple in it. |
| `AbiTypeParser.DescribedArgumentsParse` | src/evm/contract_utils.rs:88-128 | From the JSON description of the arguments to the parsed default arguments, or to the panic. |
| `AbiTypeParser.ParsedTemplateReads` | src/evm/abi.rs:1260-1438 | The template parsed from a type's name decodes every value of the type, with any bytes behind it, to that value's data. |
| `UniswapMath.SwapIff` | src/evm/uniswap/mod.rs:422-444 | The result of a swap is the one that pays `x * (10000 - fee) * reserveOut / (reserveIn * 10000 + x * (10000 - fee))` rounded down and moves the reserves by it; nothing moves where the denominator is zero. |
| `UniswapMath.PriceIff` | src/evm/uniswap/mod.rs:446-478 | The result of a quote is the one that costs one more than `reserveIn * y * 10000 / ((reserveOut - y) * (10000 - fee))` rounded down, a request above the reserve cut to one below it. |
| `UniswapMath.SplitSaleYieldsNoMore` | src/evm/uniswap/mod.rs:422-444 | Selling `a` and then `b` never yields more than selling `a + b`, for all reserves and fees, with floor division. |
| `UniswapMath.AnySplitYieldsNoMore` | src/evm/uniswap/mod.rs:422-444 | The same for every split into any number of sales. |
| `UniswapMath.ProductNeverShrinks` | src/evm/uniswap/mod.rs:422-444 | A sale never lowers the product of the reserves and pays at most the reserve. |
| `UniswapMath.OutMonotone` | src/evm/uniswap/mod.rs:422-444 | Selling more never yields less. |
| `UniswapMath.QuoteSuffices` | src/evm/uniswap/mod.rs:446-478 | Paying what `calculate_amounts_in` quotes yields at least the requested amount. |
| `UniswapMath.QuoteIsTight` | src/evm/uniswap/mod.rs:446-478 | The quote is at most one unit above any sufficient payment. |
| `UniswapPaths.GetAmountOut` | src/evm/uniswap/mod.rs:165-198 | The loop that updates the reserve map computes the recursive route semantics. |
| `UniswapPaths.PathIff` | src/evm/uniswap/mod.rs:124-198 | A path's payout and reserves are the end of a chain of swaps, one per pair: each of at most 128 bits, in the direction of its side, between the reserves on the map or the pair's own; the last amount times the final ratio. |
| `UniswapPaths.GetAmountIn` | src/evm/uniswap/mod.rs:200-243 | The pricing loop and the final pegged pair compute the recursive quote; nothing for an empty route or where an amount is asked of an empty reserve. |
| `UniswapPaths.AmountInIff` | src/evm/uniswap/mod.rs:136-243 | The amount asked for is the end of a chain of prices, one per pair of the route and the final pegged pair. |
| `UniswapPaths.RequestedIs` | src/evm/uniswap/mod.rs:205-217 | The chain starts from `percentage` thousandths, rounded down, of the reserve that the first pair sells. |
| `SplitLaw.HoldsIff` | src/evm/uniswap/mod.rs:124-134 | For a pair and two sales: at all reserves the two together yield at most what their sum yields at once, if and only if the fee takes everything, one of them is zero, or their sum is at most 2^128 - 1. |
| `SplitLaw.BetrayingReserves` | src/evm/uniswap/mod.rs:422-444 | Whenever the fee takes less than everything and the whole is cut to less than the sum of two sales, these reserves make the two pay strictly more than the cut whole. |
| `UniswapPaths.RunKeepsProducts` | src/evm/uniswap/mod.rs:165-198 | Over any run of path swaps on one map no pair's reserve product ever decreases, sides kept. |
| `UniswapPaths.NoFreeReserve` | src/evm/uniswap/mod.rs:165-198 | When one positive reserve is back at its old value the other has not shrunk. |
| `UniswapPaths.RouteQuoteSuffices` | src/evm/uniswap/mod.rs:124-243 | The quote for a route of distinct pairs, sent back through the reversed and flipped route, returns at least the request. |
| `UniswapWidth.RunNeverOverflows` | src/evm/uniswap/mod.rs:124-198 | For fewer than 2^112 one-way swaps from 112-bit reserves every product and sum inside the swaps is below 2^256, and the 256-bit computation equals the exact one. |
| `UniswapWidth.NoWrapIfSmall` | src/evm/uniswap/mod.rs:422-444 | One swap is exact when its two products and sums fit. |
| `UniswapWidth.WrappedIs` | src/evm/uniswap/mod.rs:422-444 | A swap in registers of any size: numerator and denominator modulo the size, their quotient paid, the reserves moved by it modulo the size. |
| `UniswapWidth.ReserveParser` | src/evm/uniswap/mod.rs:506-511 | The two reserves are 112-bit and together are the low 224 bits of the slot. |
| `Liquidation.LiquidateAllToken` | src/evm/uniswap/mod.rs:342-391 | The result is the maximum over every way to take one path index per holding that has paths, each holding sold whole, in order; the reserves come from one that reaches it, or are the initial ones when it is zero. |
| `Liquidation.ProductExact` | src/evm/uniswap/mod.rs:361-376 | The Cartesian product enumerates exactly the choices. |
| `Liquidation.ChoiceIffPick` | src/evm/uniswap/mod.rs:346-353 | The choices from the collected lists are exactly these ways. |
| `Liquidation.OneSale` | src/evm/uniswap/mod.rs:373-373 | One sale pays and leaves what its path does. |
| `Liquidation.SalesAppend` | src/evm/uniswap/mod.rs:370-376 | The payouts of sales in a row add up, and the later ones meet the reserves the earlier ones left. |
| `Liquidation.PathlessHoldingsIgnored` | src/evm/uniswap/mod.rs:346-353 | Tokens without paths change nothing in what is best. |
| `FlashloanOracle.GainsLessDebts` | src/evm/oracles/erc20.rs:113-124 | Gains less debts of a token are the sum of `after - before` over its balance entries. |
| `FlashloanOracle.EntryGainsOrOwes` | src/evm/oracles/erc20.rs:117-124 | One entry gains what it rose by or owes what it fell by. |
| `FlashloanOracle.PartIsFloor` | src/evm/oracles/erc20.rs:120-122 | The part sent is a tenth, rounded down, of the wrapped product with the percentage. |
| `FlashloanOracle.CallBalance` | src/evm/oracles/erc20.rs:110-160 | Per token and for every percentage, up to wrap-around: held before plus gained equals sent plus held after plus what the write-back loses. |
| `FlashloanOracle.ConservedIff` | src/evm/oracles/erc20.rs:113-160 | A call conserves a token, up to wrap-around, if and only if it does not both write it back and keep a new gain of it. |
| `FlashloanOracle.ExactBalance` | src/evm/oracles/erc20.rs:110-160 | Up to 10 tenths, if ten times what is held and gained fits the register, the balance is one of plain numbers. |
| `FlashloanOracle.HalfwayLoses` | src/evm/oracles/erc20.rs:148-160 | A concrete call at five tenths that loses five tokens. |
| `FlashloanOracle.DoubleSent` | src/evm/oracles/erc20.rs:119-140 | At twenty tenths a gain of ten sends twenty and leaves ten below the top of the register. |
| `FlashloanOracle.RunBalance` | src/evm/oracles/erc20.rs:110-160 | Over any run at any percentages, up to wrap-around: what was held, what all balances changed by and what is owed for them equals what was sent, is still held, or was lost by a write-back. |
| `FlashloanOracle.RunConserves` | src/evm/oracles/erc20.rs:110-160 | Over any run with percentages 0 and 10, while ten times the total fits the register: what was held and what the balances changed by equals what was sent, less what is owed, plus what is still held. |
| `FlashloanOracle.FlashloanData.SettleBalances` | src/evm/oracles/erc20.rs:110-142 | The loop over the balances lists debts and sent gains per token and adds the kept gains. |
| `FlashloanOracle.FlashloanData.LiquidateHeld` | src/evm/oracles/erc20.rs:148-160 | The loop over the amounts held at the start sends their share and overwrites exactly those entries. |
| `FlashloanOracle.FlashloanData.Oracle` | src/evm/oracles/erc20.rs:104-174 | The whole call, for every percentage: both liquidation searches are best, `earned - owed` moves by exactly sent value minus due value, the held amounts are those of the accounting law. |
| `RouteSearch.Search.Dfs` | src/evm/onchain/endpoints.rs:985-1023 | Terminates, restores the path stack, and visits a closed set of tokens reachable from the start, using each of their exits once. |
| `RouteSearch.ExploredExactly` | src/evm/onchain/endpoints.rs:985-1023 | Such a set, from the empty visited set, is exactly the tokens reachable through tokens that are not pegged. |
| `RouteSearch.FindRoutes` | src/evm/onchain/endpoints.rs:1028-1047 | Routes and edge occurrences from visited to pegged tokens correspond one to one; each route is a connected chain of distinct tokens ending in one pegged hop. |
| `RouteCrawl.GetAllHops` | src/evm/onchain/endpoints.rs:897-925 | The recursion and its loop compute the specified crawl. |
| `RouteCrawl.CrawlTokenDoes` | src/evm/onchain/endpoints.rs:897-925 | The crawl expands new tokens with their own pools, each reached by a walk without repeats within the depth limit; every refused token is reached by one exactly one edge longer; all their other successors are pegged or marked. |
| `RouteCrawl.NothingMissedIff` | src/evm/onchain/endpoints.rs:897-925 | The expanded tokens are exactly those reachable on the chain if and only if none was refused. |
| `RouteCrawl.ShallowMissesNothing` | src/evm/onchain/endpoints.rs:897-925 | If no walk without repeats from the start has more than five edges, none is refused. |
| `RouteCrawl.ShallowIff` | src/evm/onchain/endpoints.rs:897-925 | No walk without repeats from the start has more than five edges if and only if none is refused in any order of each token's pools. |
| `RouteCrawl.NearTokenMissed` | src/evm/onchain/endpoints.rs:905-909 | A chain on which a token one hop from the start is never expanded, and its way out is lost. |
| `RouteCrawl.FindPathSubgraph` | src/evm/onchain/endpoints.rs:1025-1047 | The routes are complete for the crawled graph, and for the whole chain if no walk without repeats is longer than the limit. |
| `InfantCorpus.InfantStates.CorpusAdd` | src/indexed_corpus.rs:45-50 | The index is the counter, which only grows; no other entry changes. |
| `InfantCorpus.InfantStates.RemoveEntry` | src/scheduler.rs:157-169 | Removing an entry keeps corpus, tallies, ranking and cached totals in step. |
| `InfantCorpus.InfantStates.OnAdd` | src/scheduler.rs:81-153 | A new entry gets three votes and one visit; above 500 entries the 250 with the lowest score go, none of which scores above a survivor. |
| `InfantCorpus.InfantStates.AddInfantState` | src/state.rs:452-470 | After any addition there are between 1 and 500 live snapshots and the whole invariant holds; the index was never used before. |
| `InfantCorpus.InfantStates.Next` | src/scheduler.rs:172-228 | Returns a live index, the one the roll selects, and counts the visit. |
| `InfantCorpus.InfantStates.GetInfantState` | src/state.rs:430-448 | Never fails after the first addition and returns the stored snapshot of a live index. |
| `InfantCorpus.InfantStates.Vote` | src/scheduler.rs:237-265 | Three votes, counted in the total even for an absent entry; the ranking is sorted again. |
| `InfantCorpus.SelectionTiles` | src/scheduler.rs:201-219 | The thresholds that select an entry form an interval as wide as its votes; the intervals tile the range and the excess goes to the last. |
| `InfantCorpus.PrefixTotal` | src/scheduler.rs:201-219 | The intervals together are as wide as all votes. |
| `InfantCorpus.SampleIff` | src/scheduler.rs:201-219 | Roll `r` of 1000 picks an entry if and only if `r * votes_total / 1000` lies in its interval, or beyond all of them for the last. |
| `InfantCorpus.Pick` | src/scheduler.rs:207-219 | The sampling loop with its fallback selects that entry. |
| `InfantCorpus.AddedSound` | src/scheduler.rs:101-108 | Adding keeps: ranking without repeats over exactly the keys, descending even after a plain push; `visits_total` and `votes_total` one above the sums, plus three per vote for an absent entry. |
| `InfantCorpus.RemovedSound` | src/scheduler.rs:163-167 | Removing keeps the same, and its subtractions never underflow. |
| `InfantCorpus.VotedSound` | src/scheduler.rs:237-264 | Voting keeps the same, with one more absent vote if the entry is gone. |
| `InfantCorpus.VisitedSound` | src/scheduler.rs:221-225 | Visiting keeps the same. |
| `InfantCorpus.Lowest` | src/scheduler.rs:123-134 | The entries chosen for removal score at most what every other entry scores. |
| `InfantCorpus.PrunedBounded` | src/scheduler.rs:111-150 | Pruning brings the size back between 1 and 500. |
| `InfantCorpus.PrunedMeans` | src/scheduler.rs:111-150 | Up to 500 entries none goes; above, 250 go, none of them with more votes per visit than one that stays. |
| `InfantCorpus.ThreeVotes` | src/scheduler.rs:101-108 | A new entry has three votes and one visit, a vote adds three, a visit one, and the totals follow. |
| `SnapshotTrace.Campaign.constructor` | src/evm/corpus_initializer.rs:191-203 | The campaign starts from one snapshot with an empty trace. |
| `SnapshotTrace.Campaign.AddSeed` | src/evm/corpus_initializer.rs:165-189 | A seed input is not bound to a snapshot, and the campaign's invariant holds with it. |
| `SnapshotTrace.Campaign.Mutate` | src/evm/mutator.rs:129-214 | However often the havoc loop moves it, an input that leaves the mutator is bound to a snapshot that bears its index; without moves a bound one stays where it was, and an unbound one costs its snapshot a visit. |
| `SnapshotTrace.Campaign.Evaluate` | src/fuzzer.rs:588-619 | An interesting run that did not revert is recorded as one transaction on the snapshot the input stood on; every recorded trace stays genuine, also after pruning. |
| `SnapshotTrace.Campaign.Print` | src/tracer.rs:156-280 | In every state of every campaign printing terminates and gives the end of the run after its last pruned ancestor. |
| `SnapshotTrace.ChainIsRun` | src/tracer.rs:125-132 | Following the back-pointers goes through strictly smaller indices to the initial snapshot, and the recorded transactions are a run of the virtual machine along them. |
| `SnapshotTrace.StoredIsRun` | src/fuzzer.rs:602-619 | The same for every stored snapshot. |
| `SnapshotTrace.RunsAgree` | src/tracer.rs:125-132 | With a deterministic machine any two runs of the same transactions agree at every step. |
| `SnapshotTrace.HoldsPointsDown` | src/tracer.rs:167-180 | What the corpus still holds of a genuine history has only downward pointers, so the recursion ends. |
| `SnapshotTrace.Render` | src/tracer.rs:156-218 | The recursion and the loop over transactions give the lines of the surviving transactions behind the right heading. |
| `SnapshotTrace.PrintedIsSuffix` | src/tracer.rs:201-279 | The printed transactions are the chain without its first `n`, where ancestor `n - 1` is the last one pruned. |
| `SnapshotTrace.WholeRunPrintedIff` | src/tracer.rs:201-279 | The whole chain is printed if and only if no ancestor was pruned. |
| `PrunedRun.FirstSnapshotLost` | src/tracer.rs:167-180 | On any machine a campaign of a bound input and 500 interesting runs, after which the next run of that input prints as the error line alone. |
| `PrunedRun.PrintOrphan` | src/tracer.rs:167-180 | In every campaign a trace whose parent was pruned prints as the error line alone. |
| `PrunedRun.FirstGoes` | src/scheduler.rs:111-150 | A snapshot with three votes and two visits among 500 with three votes and one visit is among those pruned. |
| `ReplayFile.ReadFile` | src/fuzzers/evm_fuzzer.rs:234-348 | The reader's loop gives the inputs of the lines up to the first that panics, skipping lines of fewer than four columns. |
| `ReplayFile.ReaderPanicsIff` | src/fuzzers/evm_fuzzer.rs:234-346 | For any line: skipped if it has fewer than four words, and exactly which lines panic. |
| `ReplayFile.ReaderGives` | src/fuzzers/evm_fuzzer.rs:244-346 | Which word gives which field, and the defaults of numbers that cannot be read. |
| `ReplayFile.LineIsWritten` | src/tracer.rs:221-277 | The words of a printed line, one by one, for loans, transfers and calls. |
| `Text.SplitWithout` | src/fuzzers/evm_fuzzer.rs:234-236 | The pieces of a split text have no separator in them. |
| `Text.TerminatedSplit` | src/fuzzers/evm_fuzzer.rs:234-236 | Put together with separators they are the text. |
| `Text.HexDigits` | src/tracer.rs:229-265 | Two lower-case hexadecimal digits per byte, the high one first. |
| `Text.HexDecodeIff` | src/fuzzers/evm_fuzzer.rs:248-308 | What is read as hexadecimal is an even number of digits of either case. |
| `Text.HexDecodeAt` | src/fuzzers/evm_fuzzer.rs:248-308 | Byte by byte, what such a text is read as. |
| `Text.HexValueIff` | src/fuzzers/evm_fuzzer.rs:248-308 | Digit by digit, in both cases. |
| `Text.DecimalDigit` | src/tracer.rs:234-265 | A printed number has its decimal digits. |
| `Text.DecimalLeads` | src/tracer.rs:234-265 | A printed number has no leading zeros. |
| `Text.ParseSpellings` | src/fuzzers/evm_fuzzer.rs:250-254 | Leading zeros and a plus sign are read over; a number beyond the width is not read. |
| `ReplayFile.LineReadsBack` | src/tracer.rs:221-277 | One printed line reads back as its transaction: kind, addresses, calldata or randomness, value, percentage, call limit, step flag. |
| `ReplayFile.FileReadsBack` | src/fuzzers/evm_fuzzer.rs:234-348 | A printed file reads back as its sequence of transactions, with or without the error line in front. |
| `ReplayFile.WriterPanicsIff` | src/tracer.rs:229-275 | Writing panics if and only if some transaction lacks what its kind needs. |
| `ReplayFile.TraceReplays` | src/tracer.rs:194-280 | Writing a snapshot's trace and reading it gives the end of its run after the last pruned ancestor. |
| `ReplayFile.EnvironmentNotPrinted` | src/tracer.rs:221-277 | Runs whose transactions differ only in the block environment are printed alike. |
| `ReplayFile.ReplayReproducesSnapshot` | src/fuzzers/evm_fuzzer.rs:234-370 | Replaying the file of a snapshot with no pruned ancestor, all of whose transactions ran in the reader's environment, ends in the snapshot's state. |
| `ReplayFile.LogReplaysIff` | src/fuzzers/evm_fuzzer.rs:270-282 | On a machine that records its environments the replay is right if and only if every transaction ran in the reader's environment. |
| `ReplayFile.PrettyPercent` | src/evm/input.rs:694-716 | The liquidation percentage is recovered from the text that describes a transaction. |
| `Bytecode.InstructionsPc` | src/evm/middlewares/instruction_coverage.rs:22-36 | The loop lists exactly the instruction starts. |
| `Bytecode.StartIffWalk` | src/evm/middlewares/instruction_coverage.rs:22-36 | A position is a start if and only if a walk over whole instructions from zero gets there. |
| `Bytecode.StartsChain` | src/evm/srcmap/parser.rs:97-121 | Each next start is where the instruction before ends; the last one reaches the end of the code. |
| `Bytecode.StartsOfPadded` | src/evm/middlewares/instruction_coverage.rs:22-36 | The starts of the code are a prefix of the starts of the padded bytes, and the others lie in the padding. |
| `Bytecode.FindConstants` | src/evm/bytecode_analyzer.rs:11-70 | Exactly the payloads of opcodes 0x61 to 0x7f, at starts, complete inside the code and not followed by 0x57; nothing is read outside the code. |
| `SourceMap.UncompressSrcmapSingle` | src/evm/srcmap/parser.rs:37-87 | Panics if and only if a column that is read is not a number; otherwise every part of every location is from the latest entry that states it, an incomplete first entry not counting. |
| `SourceMap.LocationFrom` | src/evm/srcmap/parser.rs:56-81 | The first column gives the offset, the second the length, the third the index of the file. |
| `SourceMap.LocationUnset` | src/evm/srcmap/parser.rs:50-81 | A column that no entry has set gives zero, or no file. |
| `SourceMap.MeantIff` | src/evm/srcmap/parser.rs:50-81 | A location is the one the text means, every part from the latest entry that states it, if and only if the first entry is complete or nothing it states is still in force and means anything. |
| `SourceMap.IncompleteFirstEntryIsLost` | src/evm/srcmap/parser.rs:52-55 | A map whose text places both entries at offset 1 and length 2, and whose locations are empty. |
| `SourceMap.CompleteMapInherits` | src/evm/srcmap/parser.rs:50-55 | With a complete first entry every column has an explicit value to go back to. |
| `SourceMap.DecodeInstructions` | src/evm/srcmap/parser.rs:89-123 | The k-th instruction start has the k-th location and nothing else has one. |

## Left out

- The virtual machine, its host and its coverage maps: execution is a parameter, a step relation.
- The GPU stage, except for the assertions that the codec has to satisfy.
- Concolic execution, and `get_concolic` of the value tree.
- `AUnknown` and `sample_abi`: values of unknown type; parsing `unknown` or a word of more than 32 bytes gives `Beyond`.
- Network access, caches, the command line, logging and telemetry.
- The choice of inputs and the minimizer map in the fuzzer: they depend on a library that is not part of this model.
- Hashes and derived pair addresses.
- In-place update of the value tree below its root: the tree is modelled on values, each box having one owner; `BoxedAbi` models the update of the root.
- `get_pair`, `get_pegged_next_hop` and the reserves attached to routes afterwards: the first two are functions, the last is not modelled.
- Sorting inside the scheduler is an insertion sort; stability is not claimed.
- ReplayFile.ReadFile: the spellings of 256-bit numbers that the writer never produces (radix prefixes, underscores, the empty text) count as panics, because the library that reads them is not part of this model.
- Traces are recorded only with the `print_infant_corpus` or `print_txn_corpus` feature (src/fuzzer.rs:603); the model has it on.
- The parenthesis counter and the corpus counter do not wrap around at their widths.
- `StagedVMState` with a missing input (`[REDACTED]`): a corpus in memory always has it.
- AbiRoundTrip.RoundTrip: buffers of 2^64 bytes and more are outside, because the size word does not support them.
- AbiGapFailures.RoundTripsIffSane: the converse leaves out types with dynamic tuples inside tuples, because there it is false (`LuckyRoundTrips`), and types whose smallest values fill 2^64 bytes.
- AbiWords.FlagIff: a word of zero bytes, such as `bytes0`, gets width 0; in the program's enumeration it gets the entry before the first.
- UniswapPaths.GetAmountIn: asking an amount of an empty reserve gives nothing; what the wrapped subtraction computes there is not modelled.
- FlashloanOracle.FlashloanData.Oracle: the 512-bit sums of earned and owed values do not wrap around.
- ReplayFile.LineReadsBack: a percentage above 255 reads back as 0, a call with the single byte 0 as data reads back as no data, and a borrow line's percentage is not read back, as in the program.
- InfantCorpus.InfantStates.Prune: which of several entries with equal scores go is left open.
