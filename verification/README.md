# Verified model of the node tools

This Dafny project models the hand-written logic of five command-line tools for an Everscale/Venom node and proves properties of it over all inputs, all replies of the server and all answers of the network.

- **`console`** (`Octets`, `Hex`, `Base64`, `Numerals`, `ConsoleParams`, `Commands`, `Messages`, `Cells`, `ElectionBid`, `Json`, `JsonRendering`, `AccountText`, `Stats`). An election bid runs eight dependent server commands. Keys, times and the payload to sign travel between them as text that every command parses again. The bid then checks the signature and writes one file. `ElectionBid.ControlClient` is that workflow as a class over an arbitrary reply sequence, an arbitrary clock, and an arbitrary signature scheme, serializer and file system. Hexadecimal, base64, decimal and big-endian text and bytes are concrete. `AccountText` is the JSON text that `getaccount` builds push by push, and `Json` is a reader for the whole JSON grammar that undoes it, and `JsonRendering` shows that this reader skips and supplies nothing but space (`JsonRendering.ParsedTextIsRendering`). What it reads does not depend on what follows (`Json.ValueExtends`), which is how the dump of `print`, whose objects a library renders, can be read without knowing them.
- **`adnl_resolve`** (`Resolver`). The work list that is searched, refreshed, probed and pruned in place while the network answers as it likes. A script fixes the network's answers turn by turn. A run over a script that is still searching at its end is a prefix of a longer run, so statements over all scripts are statements over all prefixes of all runs.
- **`zerostate`** (`ZeroState`). The rewriting of the workchain map during a walk over its snapshot, with files named by the hash of their contents.
- **`print`** (`AccountsDump`) and **`dhtscan`** (`DhtScan`, `LastWins`). A nested traversal that streams a JSON array, a multi-round accumulation whose increments are reported, and the report of new nodes.

Where the code changes state step by step, the model is a class or a method with loops, proved against a specification function. Where the code is made of expressions and closures, the model is functions. Integers are unbounded in Dafny, so the i32 subtraction of a time to live is written out as the wrap-around of a release build (`cargo build --release` is what the documentation tells users to run).

## Where the code and its documentation or expectations differ

- `README.md` of the tools says that the data for `sign` may be hexadecimal or base64. The code reads hexadecimal only (`ConsoleParams.ParseDataExact`). Base64 text is refused, or, if it consists of hexadecimal digits, taken for other bytes: `ConsoleParams.Base64DataExample` signs two bytes for the base64 text of three, and `ConsoleParams.Base64DataMisread` shows that only the empty data are read as meant.
- `README.md` asks only that `max_factor` be at least 1. The code also refuses more than 100 (`ElectionBid.DocumentedInputs`).
- The bid registers its ADNL address with the election time as expiry, not with the expiry time of the validator keys (line 637 of `bin/console.rs`). `ElectionBid.AddressExpiresEarly` and `ElectionBid.BidTimes` state what follows, for every clock.
- The clock is cut to an i32 before it becomes the 64-bit query id of a bid or a recovery. `ElectionBid.QueryId` states exactly for which clocks the id is still the clock reading: until January 2038.
- The description of a stored account shows an absent balance as zero. Whether the library's account type can lack a balance while its other fields equal those of an account with the balance zero lies outside this repository; the model allows it, and `AccountText.DescribesInjectively` and `AccountText.AbsentBalanceLooksLikeZero` state exactly what is lost then.
- If a list of DHT nodes has duplicates, an unresponsive peer is probed again within the same sweep. `Resolver.DuplicatePresetReprobed` gives an input, and `Resolver.SilentSweepNeedsNoDup` shows that this happens exactly then.
- `adnl_resolve` panics on an id that decodes to fewer than 32 bytes (`Resolver.WantedIdPanics`), and silently cuts a longer one (`Resolver.WantedIdExact`).
- `dhtscan` prints no new node at all unless more nodes are known than were preset. `DhtScan.NewNodeUnreported` gives an input where a reachable new node goes unreported, and `DhtScan.CompleteUnlessGuarded` and `DhtScan.AllNewReportedExact` state exactly when none does. `DhtScan.GuardExact` shows that the guard asks the right question when every preset is among the known nodes and nothing is listed twice.

## Assumptions

Each is a parameter, or a `requires` clause of the lemma that needs it; none is assumed globally.

- The server's replies are well typed and otherwise arbitrary. Silence, errors and replies of a wrong type are among them.
- Reading a bag of cells inverts writing it, where a lemma speaks about a file read back (`Cells.Inverts`).
- The file hash tells apart the finitely many bags written in one run, and serialization can be inverted, where a lemma of `ZeroState` speaks about what a file reads back as. `ZeroState.AssumptionsCanBeMet` gives, for every master state, a library that meets both.
- Lists of DHT nodes have no duplicates and come from a finite universe, where a lemma of `Resolver` says so.

## Model

| member | source | states |
|---|---|---|
| Octets.WrapI32 | bin/console.rs:286 | an i32 subtraction or cast is congruent to the true result, and equal to it exactly inside the range |
| Octets.DecodesBigEndian | bin/console.rs:641-643 | big-endian bytes of a number that fits are read back as that number |
| Octets.EncodesBigEndian | bin/console.rs:655-659 | every byte string is the big-endian form of the number it is read as |
| Octets.ByteAt | bin/console.rs:641-643 | the byte at each position by itself, the first with the greatest weight |
| Octets.SignExtend64 | bin/console.rs:578 | an i32 cast to 64 bits is congruent to it modulo 2^64, and equal to it exactly if it is not negative |
| Hex.DecodeExact | bin/console.rs:126 | the decoder accepts exactly the renderings of a byte string, in any mixture of letter cases, and nothing else |
| Hex.RoundTrip | bin/console.rs:619 | lower-case and upper-case renderings decode to the bytes they came from |
| Hex.DecodableExact | bin/console.rs:126 | a text decodes at all exactly if it is an even number of hexadecimal digits |
| Hex.Digits | bin/console.rs:237 | both alphabets in full; the high half of a byte is printed first |
| Hex.LowerAppended | bin/console.rs:237 | a byte string is printed byte after byte |
| Base64.RoundTrip | bin/console.rs:237 | every byte string of any length is decoded from its padded encoding |
| Base64.DecodeExact | bin/console.rs:136 | among strings of whole quanta exactly one spelling decodes to given bytes; stray bits and misplaced padding are refused |
| Base64.DecodeAnyExact | bin/adnl_resolve.rs:51 | among texts of any length exactly the encoding, with some or all of its padding left off, decodes to given bytes |
| Base64.SameBits | bin/console.rs:237 | the four sextets are the 24 bits of the three octets in the same order |
| Base64.Quanta | bin/console.rs:237 | three bytes are printed as their four sextets, quantum after quantum |
| Base64.LastQuantum | bin/console.rs:237 | one or two bytes at the end are filled up with zero bits and equals signs |
| Base64.Alphabet | bin/console.rs:237 | the alphabet is the standard one: its corners, and consecutive characters between them |
| Base64.EncodedLength | bin/console.rs:136 | four characters for every three bytes begun, so 44 for 31, 32 and 33 bytes |
| Numerals.IntRoundTrip | bin/console.rs:605-610 | a printed integer is read back if the type can hold it and refused otherwise |
| Numerals.Positional | bin/console.rs:439-448 | decimal and hexadecimal numerals are positional, the last digit being the unit |
| Numerals.SpellingsAreRead | bin/console.rs:145-147 | an optional sign, any zeros and a numeral are read as the integer they denote |
| Numerals.OnlySpellingsAreRead | bin/console.rs:145-147 | nothing else is read as an integer |
| Numerals.SpellingText | bin/console.rs:145-147 | what a spelling looks like: plus or minus sign, zeros, numeral |
| Numerals.ParseIntExact | bin/console.rs:145-147 | a text is read as an integer if and only if it spells it and the type can hold it |
| ConsoleParams.TrimDropsQuotes | bin/console.rs:111 | quotes on either side vanish and nothing else does |
| ConsoleParams.ParseInt256Exact | bin/console.rs:130-143 | a text is read as a key if and only if it spells that key in hexadecimal of any case or in its one base64 form |
| ConsoleParams.SpellingIsUnambiguous | bin/console.rs:135-139 | the 44/64 dispatch on the length never takes one key for another |
| ConsoleParams.PrintedKeysAreRead | bin/console.rs:235-238 | all three printed forms of every key, with or without quotes, are read back as that key |
| ConsoleParams.NearMissesRefused | bin/console.rs:140 | 44 characters that decode to 31 or 33 bytes are refused |
| ConsoleParams.PrintedBytesAreRead | bin/console.rs:122-128 | any byte string in hexadecimal is read back by the data parser |
| ConsoleParams.ParseDataExact | bin/console.rs:122-128 | data is read if and only if it is hexadecimal, and as the bytes its digits stand for |
| ConsoleParams.Base64DataMisread | bin/console.rs:122-128 | the documented base64 form of the data is read as these data only if they are empty |
| ConsoleParams.Base64DataExact | bin/console.rs:122-128 | it is read at all, and then as other bytes, exactly if it happens to consist of hexadecimal digits |
| ConsoleParams.Base64DataExample | bin/console.rs:122-128 | `ABCD`, the base64 text of three bytes, is read as two others |
| ConsoleParams.PrintedIntsAreRead | bin/console.rs:145-147 | every i32 in decimal is read back by the integer parser |
| ConsoleParams.ParseIntExact | bin/console.rs:145-147 | between quotes, exactly the spellings of the integers an i32 can hold are read, each as that integer |
| ConsoleParams.ParseIntRefuses | bin/console.rs:145-147 | every other text, integers out of range included, is refused as no integer |
| Commands.Marshalled | bin/console.rs:242-333 | every request of a bid survives printing and re-parsing inside `send`: the typed request comes back, with the time to live the expiry calls for |
| Commands.SentExactly | bin/console.rs:223-333 | over all commands and parameters: a request is sent exactly if it is of the command's kind and the parameters denote it, with keys and integers in any spelling, data in hexadecimal, and an absolute time for each time to live |
| Commands.ExportSentExactly | bin/console.rs:243-248 | the request names a key exactly when the first parameter spells it |
| Commands.TooFewParameters | bin/console.rs:108-113 | a command with too few parameters is not sent |
| Commands.ReceiveFails | bin/console.rs:226-575 | which failure a reply that is no answer gives: silence, an error object, a missing key, a wrong type |
| Commands.CategoryExact | bin/console.rs:321-333 | an ADNL category outside 0..15 is refused before anything is sent |
| Messages.TagBytes | bin/console.rs:580-655 | the first four bytes of each layout are its tag |
| Messages.RecoverLayout | bin/console.rs:580-581 | the query id fills the eight bytes after the tag of a recovery |
| Messages.BidLayout | bin/console.rs:641-645 | where election time, factor, wallet id and ADNL address stand in the bytes that are signed |
| Messages.BodyLayout | bin/console.rs:655-660 | where query id, public key, election time, factor and ADNL address stand in the body |
| Messages.DecodeExact | bin/console.rs:580-581 | over all three layouts at once, decoding is the exact inverse of encoding in both directions |
| Messages.UniquelyDecodable | bin/console.rs:641-660 | two messages of any kind, with wallet ids of any length, have the same bytes only if they are the same message |
| ElectionBid.CheckBidExact | bin/console.rs:595-615 | exactly which configurations and parameters are accepted, and as which bid |
| ElectionBid.CheckBidRefuses | bin/console.rs:595-615 | all others are refused with the error of the first check that fails, in the order wallet, election time, expiry time, factor |
| ElectionBid.DocumentedInputs | bin/console.rs:595-615 | inputs as documented, with any factor of at least 1, are accepted as meant if and only if the factor is at most 100 |
| ElectionBid.FixedPointIsFaithful | bin/console.rs:611-615 | the 16.16 factor stays in 1.0..100.0, misses the real one by less than 1/65536 from below, keeps order, and survives its bytes |
| ElectionBid.QueryId | bin/console.rs:653 | the query id is congruent to the clock modulo 2^32, and exactly for which clocks it is the clock reading itself; until January 2038 it is |
| ElectionBid.PathParam | bin/console.rs:668 | the path given, or the default one |
| ElectionBid.ControlClient.ProcessCommand | bin/console.rs:550-575 | a request is sent exactly when the parameters parse, and the result is that of the reply |
| ElectionBid.ControlClient.RunCommands | bin/console.rs:617-649 | the server sees the typed script, in order, up to and including the first step that fails; the results are those of the replies |
| ElectionBid.ControlClient.ProcessElectionBid | bin/console.rs:594-671 | inputs that fail a check reach nobody; a file is written, to the given path or to `validator-query.boc`, if and only if all eight steps, the signature check, the serializer and the disk succeed; the file then holds a signed bid, and nothing else changes |
| ElectionBid.ControlClient.ProcessRecoverStake | bin/console.rs:577-590 | the recovery query of the clock reading is written to the given path or to `recover-query.boc`, or nothing is |
| ElectionBid.ScriptKeepsOrder | bin/console.rs:617-648 | the commands of every script are newkey, exportpub, addpermkey, addtempkey, newkey, addadnl, addvalidatoraddr, sign |
| ElectionBid.ProgressExact | bin/console.rs:617-648 | the progress of a bid is n exactly when the first n steps are answered as they must be and the next is not |
| ElectionBid.AllAnsweredExact | bin/console.rs:226-280 | a bid gets through its commands exactly if the server answers eight times in kind; silence, an error or another type at any step leaves it short |
| ElectionBid.KeysAreReplies | bin/console.rs:617-649 | the keys and the signature of an answered bid are those in the first, second, fifth and eighth reply |
| ElectionBid.BidTimes | bin/console.rs:153-319 | for an accepted bid and any clock, the permanent key's time to live leads exactly from the election to the expiry; exactly when the other two are those of the true clock, and when the ADNL one is positive |
| ElectionBid.AddressExpiresEarly | bin/console.rs:637 | the ADNL address of an accepted bid is never registered to expire with the keys |
| ElectionBid.BidFileReadsBack | bin/console.rs:640-670 | reading a bid file back gives the clock reading as query id, public key, election time, factor and ADNL address; the payload rebuilt from them and the wallet id is what was sent to be signed, and the referenced signature verifies over it under the body's own key |
| ElectionBid.RecoverFileReadsBack | bin/console.rs:577-590 | reading a recovery file back gives a recovery query whose id is the clock reading |
| AccountText.Receive | bin/console.rs:414-455 | the pushes build the description |
| AccountText.DescriptionIsJson | bin/console.rs:419-455 | every description is a well-formed JSON object with exactly the expected members |
| AccountText.ReadsBack | bin/console.rs:419-455 | status, balance, last paid, logical time and bag of cells are recovered from the text for every account |
| AccountText.DescribesInjectively | bin/console.rs:423-453 | two descriptions agree exactly if the accounts do once an absent balance is taken for zero; a missing account differs from a stored nonexistent one |
| AccountText.AbsentBalanceLooksLikeZero | bin/console.rs:437 | the one difference that is lost |
| Stats.StatKeysExact | bin/console.rs:157-171 | the map has exactly the keys that occur |
| Stats.LastStatShown | bin/console.rs:158-169 | a repeated key shows the classification of its last value |
| Stats.IntegersShown | bin/console.rs:161-162 | decimal text is classified as a number, and as that number, exactly if an i64 holds it |
| Stats.IntegerExactly | bin/console.rs:161-162 | a value is shown as a number exactly if it spells one an i64 can hold, whatever its sign and leading zeros |
| Stats.ParsedExactly | bin/console.rs:163-164 | as a JSON value exactly if it is not empty, no such number, and the library parses it |
| Stats.TextExactly | bin/console.rs:159-167 | as text exactly otherwise, without its quotes, or as the word null if it is empty |
| Resolver.WantedIdExact | bin/adnl_resolve.rs:51 | an id is taken from exactly the texts that spell, with or without padding, at least 32 bytes beginning with it |
| Resolver.WantedIdPanics | bin/adnl_resolve.rs:51 | exactly the texts that spell fewer than 32 bytes bring the resolver down |
| Resolver.WantedIdRefused | bin/adnl_resolve.rs:51 | exactly the texts that spell no bytes are refused with an error |
| Resolver.PresetKeys | bin/adnl_resolve.rs:43-49 | the first list holds the key of each preset at its position |
| Resolver.Run | bin/adnl_resolve.rs:55-91 | in every reachable state the index is at most the length of the list, and every access is inside it |
| Resolver.Resolver.RefreshNodes | bin/adnl_resolve.rs:65-78 | the in-place refresh is the specified one |
| Resolver.Resolver.TakeTurn | bin/adnl_resolve.rs:55-91 | the body of the loop, removing in place or stepping on, is the specified turn |
| Resolver.Resolver.Search | bin/adnl_resolve.rs:52-91 | the in-place loop over nodes, bad nodes and index is the specified run |
| Resolver.Resolver.Scan | bin/adnl_resolve.rs:41-91 | presets, then the id, then the loop; a refused preset or a bad id ends the scan before any probe |
| Resolver.SweepIsStablePartition | bin/adnl_resolve.rs:79-90 | a sweep probes its list in order, each position once, keeps the responsive peers in order and appends the others to the bad ones |
| Resolver.SweepConserves | bin/adnl_resolve.rs:79-90 | a whole sweep neither loses nor invents a peer |
| Resolver.RunAccounts | bin/adnl_resolve.rs:55-91 | without any assumption, the bad list is exactly the unanswered part of the log and only grows |
| Resolver.RunKeepsInv | bin/adnl_resolve.rs:41-91 | over every run the two lists are disjoint and free of duplicates, and no unresponsive peer is probed again across refreshes |
| Resolver.UnansweredProbesAreFew | bin/adnl_resolve.rs:85-90 | all but as many probes of a run as there are peers were answered |
| Resolver.StartKeepsInv | bin/adnl_resolve.rs:41-53 | both hold for every scan from duplicate-free presets |
| Resolver.SilentSweepNeedsNoDup | bin/adnl_resolve.rs:85-87 | a sweep in which nobody answers probes a bad peer again if and only if its list has duplicates |
| Resolver.DuplicatePresetReprobed | bin/adnl_resolve.rs:43-87 | a preset listed twice is probed again after it has failed to answer |
| Resolver.SweepWithoutDuplicates | bin/adnl_resolve.rs:79-90 | with no duplicates no sweep probes a bad peer again, whatever the answers |
| Resolver.SweepShrinks | bin/adnl_resolve.rs:79-90 | what is left of a sweep shrinks with every turn that does not refresh |
| Resolver.SilenceEndsTheLoop | bin/adnl_resolve.rs:55-91 | if nobody answers from some state on, the loop ends within one turn more than there are peers not yet bad |
| Resolver.TurnsAreBounded | bin/adnl_resolve.rs:55-91 | a run still searching took at most the rest of its first sweep and one universe of turns per refresh |
| Resolver.AdmittedExact | bin/adnl_resolve.rs:67-73 | a refreshed list holds exactly the listed keys that are not bad |
| Resolver.AdmittedConcat | bin/adnl_resolve.rs:67-73 | refreshing keeps the order of the listing |
| Resolver.AdmittedEach | bin/adnl_resolve.rs:67-73 | each listed good key is admitted once, refused and bad ones are passed over, and an error ends the listing |
| Resolver.RefreshingTurn | bin/adnl_resolve.rs:65-90 | a turn that begins a new sweep replaces the list by the whole admitted list in order, probes its first peer, and keeps it or moves it to the bad ones |
| Resolver.RefreshedSweep | bin/adnl_resolve.rs:65-90 | from a used-up list, the run that follows probes the admitted list in order and partitions it stably |
| Resolver.EndingTurnChangesNothing | bin/adnl_resolve.rs:56-87 | a turn that ends the loop leaves the bad list and the log, and without a refresh the work list, as they were |
| Resolver.RefreshesCounted | bin/adnl_resolve.rs:65 | one refresh is counted for each turn that begins a new sweep |
| Resolver.GivesUpExactly | bin/adnl_resolve.rs:65-76 | the loop gives up exactly when a sweep is used up and every listed peer is known to be bad |
| Resolver.RunSplits | bin/adnl_resolve.rs:55-91 | a run is its first part followed by the run from there |
| Resolver.RunEndsExactly | bin/adnl_resolve.rs:55-91 | over a whole run, the loop ends with the address, with an error or for want of peers exactly when the network gives it that end at a turn it still reaches |
| ZeroState.ZeroStateTool.RewriteWorkchains | bin/zerostate.rs:31-49 | the walk in any order is a pointwise map of the descriptors with the key set unchanged; it succeeds exactly if every empty state has a bag and its file can be written; the file at each recorded name holds one of the bags; on every outcome only bags under their own hashes are added |
| ZeroState.ZeroStateTool.Import | bin/zerostate.rs:22-64 | the imported state in full, or an error, and exactly when which; on every outcome only bags of its workchains are added |
| ZeroState.ZeroStateTool.Write | bin/zerostate.rs:66-104 | it succeeds exactly if the master state has a bag that reads back and both files can be written; the bag is then in the file its hash names and `config.json` holds both hashes |
| ZeroState.ZeroStateTool.Build | bin/zerostate.rs:106-148 | wherever the run stops, each file it has touched holds a bag under the name of its hash; exactly when it succeeds, and then all recorded names lead to bags and the configuration to the master state |
| ZeroState.EmptyState | bin/zerostate.rs:33-37 | the state written for a workchain has that workchain, the time and global id of the master state, and the greatest sequence number |
| ZeroState.ImportedState | bin/zerostate.rs:49-63 | apart from the hashes in its descriptors, the validators' hash, the flag and the counter, the imported state is the given one |
| ZeroState.FileNameExact | bin/zerostate.rs:44 | a file name is the hash in hexadecimal and `.boc`, so names agree exactly if the hashes do |
| ZeroState.DescriptorNamesItsState | bin/zerostate.rs:31-49 | if the hash tells apart the bags of this run, every recorded file hash names a file that reads back as a state with that workchain, the time and global id of the master state and the greatest sequence number, whose cell has the recorded root hash |
| ZeroState.WorkchainsHaveTheirOwnFiles | bin/zerostate.rs:41-45 | two workchains whose bags the hash tells apart have different files |
| ZeroState.ConfigNamesTheMasterState | bin/zerostate.rs:66-97 | the base64 hashes in `config.json` lead to a file that reads back as the master state, and to its root hash |
| AccountsDump.PrintAccounts | bin/print.rs:169-205 | the nested loop with its shared flag prints the header, all accounts of all blocks joined by comma and newline, and the trailer; it gets to the end exactly if every block can be loaded and every account read |
| AccountsDump.BlockTextsExact | bin/print.rs:174-204 | what is printed between header and trailer are the renderings of the accounts of all blocks, in order and without gaps, up to the first that fails |
| AccountsDump.AccountsAppend | bin/print.rs:174-176 | the accounts are listed block by block, of each block all |
| AccountsDump.DumpText | bin/print.rs:169-205 | the characters around the texts and between them |
| AccountsDump.DumpListsAccounts | bin/print.rs:169-205 | the printed text of a readable chain is a JSON object with one array, which lists every account of every block once and in order; its length is the total number of accounts |
| LastWins.CollectedKeys | bin/dhtscan.rs:152-159 | a map filled by insertions has exactly the keys inserted |
| LastWins.CollectedValue | bin/dhtscan.rs:156-159 | each key is bound to its last value |
| DhtScan.ScanOverlay | bin/dhtscan.rs:151-174 | the accumulated map and the reported increments of all rounds, up to the last one or an error |
| DhtScan.ReportedCountsSum | bin/dhtscan.rs:155-182 | the reported counts sum to the final total, which is the number of distinct key ids |
| DhtScan.GrowthAt | bin/dhtscan.rs:155-164 | the count reported for a round is the number of ids it finds that no earlier round has found |
| DhtScan.GrowthLength | bin/dhtscan.rs:153-174 | a count is reported for each round up to the one that ends the search, and for that one if it does not fail |
| DhtScan.InsertedExact | bin/dhtscan.rs:156-159 | a round inserts its nodes one for one and in order, up to the first whose key cannot be read |
| DhtScan.TraceSplits | bin/dhtscan.rs:153-174 | what later rounds bring comes after what earlier ones have brought |
| DhtScan.TraceOne | bin/dhtscan.rs:154-159 | a round brings its pairs, even if it is the last or fails on the way |
| DhtScan.TraceEndsExactly | bin/dhtscan.rs:153-174 | the search fails or finishes exactly if the first round after which it does not go on fails or not; without one it goes on |
| DhtScan.LatestRecordKept | bin/dhtscan.rs:156-159 | each id keeps its most recent record |
| DhtScan.Report | bin/dhtscan.rs:74-135 | the filtering loop prints the new nodes and their number, or nothing if the guard fails; it ends with an error exactly if the guard holds and some node that is no preset has an unreadable key, or answers and has an unreadable address |
| DhtScan.NewNodesExact | bin/dhtscan.rs:78-93 | a node is printed exactly if it is known, no preset, and answers |
| DhtScan.NewNodesInOrder | bin/dhtscan.rs:78-131 | the new nodes are printed in the order in which they are known, each position once, and their number is that of the new positions |
| DhtScan.PrintedOnce | bin/dhtscan.rs:78-131 | no node is printed twice unless it is known twice |
| DhtScan.BeforeSpoilerExact | bin/dhtscan.rs:89-96 | the nodes that count are those before the first with an unreadable key or address |
| DhtScan.GuardExact | bin/dhtscan.rs:76 | with all presets known and no duplicates, the guard holds exactly if some known node is no preset |
| DhtScan.AllNewReportedExact | bin/dhtscan.rs:74-135 | every new node is printed exactly if there is none, or the guard holds and they all stand before the first node that spoils the report |
| DhtScan.CompleteUnlessGuarded | bin/dhtscan.rs:74-135 | with readable nodes, every new node is printed if and only if the guard holds or there is none |
| DhtScan.NewNodeUnreported | bin/dhtscan.rs:76-135 | a preset listed twice is enough for a reachable new node to go unreported |

## Left out

- ADNL, DHT and overlay networking, key generation and everything the server does: replies and answers are arbitrary.
- Ed25519, SHA-256, cell hashes and the bag-of-cells format: function parameters.
- Serializing a request, which is taken to succeed.
- Limits of a single cell: they are among the failures of the serializer parameter.
- Debug builds, in which an i32 overflow panics instead of wrapping.
- `max_factor` as a 32-bit float: it is a real number; not-a-number, which JSON cannot express, would pass the range check as zero.
- The other console commands, the splitting of command lines, the choice of a command by its name, and the messages that commands return beside their data.
- `GetAccount::receive`: deserializing the shard account and writing the text to an optional file.
- The JSON parser behind `stats_to_json`: a function parameter; `GetSessionStats`, which applies `stats_to_json` per session.
- `process_config_param`, `calc_subset`, `update_config_smc_with_code` and `update_elector_smc`: library code; the last three are parameters of the zero state tool.
- Parsing the zero state from JSON, the vector of workchain states that nothing uses, and the detailed checks of `write_zero_state` after reading back, which are part of the parameter that reads the master state. Panics of that tool are errors here, and the file `config.json` is a field of its own.
- The text of one account in the dump: the pretty printer of a library, which is assumed to print a JSON object.
- The counts `dhtscan` prints for DHT nodes, whose subtraction depends on the routing table, and the JSON text of a reported node.
- Command-line parsing, logging, timeouts, and the tools `adnl_ping`, `gendht`, `keygen` and `keyid`.
