# NOpfs denylist engine: a verified model

NOpfs decides whether IPFS content is blocked by rules kept in denylist files in the
Compact Denylist Format (IPIP-383). This project models, in Dafny 4.11, how a rule travels
from a remote file to an answer, and proves what the code keeps on the way:

1. `Subscription.dfy` appends the missing bytes of a remote file to a local one.
2. `Reader.dfy` and `Follower.dfy` read that file, while it grows, through a buffered reader
   over a reader with a byte budget, and cut it into numbered lines; `Lines.dfy` says what the
   lines of a text are. `Header.dfy` finds the end of the header first and repositions the file.
3. `Rules.dfy` says what one line means, `Denylist.dfy` parses it and stores it in the indexes.
   `BlocksDB.dfy` is the multimap under each keyed index, with its Go slices and their backing
   arrays. `Index.dfy` says what every index holds after any number of rules.
4. `Denylist.dfy` also answers queries from the indexes, `Blocker.dfy` over several lists.
   `Lookup.dfy` says what the answers should be without any index: a query is a plan of
   probes, each probe is answered by the last accepted rule it hits, and the first defined
   probe decides. `Answers.dfy` says the same without probes: which rules cover a question, in which tier, and
   that the last in the first covered tier decides. `QueryLaws.dfy` proves laws of these answers, `LiveQueries.dfy` says when answers given
   while rules arrive are right, `HashFunctions.dfy` which hash functions matter, `ExactPaths.dfy` when exact
   path rules are found by what they mean, `Names.dfy` which names reach which IPNS rules, and
   `SafeCids.dfy` which CIDs a rule can block.
5. `Pipeline.dfy` puts remote file, local file, follower and rules together as one state machine.

`BlockedPaths.dfy`, `Entries.dfy` and `DnsLink.dfy` hold the path, entry and name codecs,
`RoundTrip.dfy` prints rules and reads them back, `GoStrings.dfy` holds the string operations of
Go's library, and `Multiformats.dfy` the CIDs and multihashes.

## How to read it

A Go string is a sequence of bytes; here one `char` stands for one byte. White space is that of
`strings.Fields`, multi-byte forms included. Integers do not wrap.

The encodings and hash functions of other libraries are the fields of a record, `Codecs`. Proofs
use only the laws in `Codecs.Lawful`, and `LawsAreConsistent` gives a codec that obeys them.

`Denylist` is a class with the fields of the Go struct. Its ghost field `rules` is the sequence of
rules accepted so far. `Valid()` says that the stores hold exactly what these rules put there.
`ParseLine` appends to `rules` what `Rules.ParseLine` makes of the line, or changes nothing, and
every lookup returns what `Lookup.Reference` finds by scanning `rules`.

Go ranges over maps in an unspecified order. The order in which hash functions and lists come up
is therefore a parameter of the lookups, arbitrary except that everything comes up once.

The follower's state (`Follow`) is its state between two calls of `ReadString`. `Turn` is one pass
through its loop, for any result that the reader can produce, and may meet the end of the file
anywhere, because the rest may arrive later. The state counts these ends (`EndsAreCounted`). The method `FollowLines` ends in a state that some trace of
turns reaches from the beginning (`Reached`), whatever it read when.

## Findings

- The comment at denylist.go:212-214 doubts the budget because the buffered reader reads ahead.
  Nothing breaks: a line of at most `maxLineSize` bytes is never given up on. The limit that is
  really applied is the budget plus the bytes that were already buffered when the line began
  (`LimitIsExact`). At every length strictly between `maxLineSize` and `maxLineSize` plus the buffer's
  size the outcome depends on how the reads fell (`AcceptedWithReadAhead`, `RejectedWithoutReadAhead`),
  and from the sum on the line is always given up on (`DrainedMeansShortLines`).
- The comment at denylist.go:56-57 gives 1 KiB as the header limit; the constant in the code is 1 MiB.
- Exact path rules are stored under their raw text but match by their unescaped, trimmed path
  (denylist.go:542-546). `PathQueriesByMeaning` gives the exact condition under which path queries are
  answered by meaning: every rule's text is its path, or its path is none that a path can have. Rule
  `/foo` is accepted, found by the direct call `IsSubpathBlocked("/foo")`, and found by no path query
  (`SlashedRule`, `SlashedFoo`). Rule `a%20b` is accepted and found by no call at all (`EscapedRule`,
  `EscapedSpace`). For arbitrary direct calls the condition is that each rule that matches has just the text
  passed (`CallsByMeaning`). So a direct call with a slash added, `foo/` for rule `foo`, misses it
  (`EndSlashesMissExactRules`, `FooWithSlash`), although the comment at denylist.go:571-572 says that
  slashes are taken care of.
- A rule whose path is an escaped star (`%2A`) matches every path within its key (`ExactRuleMeaning`).
- A line of white space alone passes the guard at denylist.go:340 and fails at denylist.go:358. The model
  has an outcome for it (`Panicked`), which ends the follower; no assumption excludes such lines.
- The comment at blocker.go:56-58 promises precedence by list position; the code ranges over a map.
  `OrderOfSources` says exactly when the order cannot be seen.
- A lookup that runs while the follower adds rules can return a status that was right at no moment. The two
  lines `-a` and `a*` do it, for the subpath `a` (`MixedFileLive`). `LiveStatusExactly` says when it cannot
  happen: exactly when every rule that arrives during the query, and hits a probe that no earlier probe kept
  the query from, says what the query would have answered at some moment.
- An IPNS rule for a dot-free name that is no CID is found by a query for that name exactly if the name is
  ASCII without a dash (`FoundByOwnName`): queries undo the DNSLink encoding and widen bytes from 0x80 on, and
  rules do neither. Names such as `my-name`, or the two bytes C3 A9, are stored and asked for under different keys.
- A DNSLink label and the name it encodes share their IPNS rules, but are hashed as they are written
  (denylist.go:699, denylist.go:724). They get the same answer at all times exactly if an IPNS rule for the name
  stands before every double-hash rule that hits a hash of either (`LabelAgreesExactly`).
- Well-known safe CIDs are told by CID (denylist.go:496), and rules are stored by multihash. So a CID rule can
  block a safe CID exactly if some CID of the same multihash is not itself listed as safe (`BlockableCids`).

## Model

| member | source | states |
|---|---|---|
| GoStrings.FieldsOfJoin | denylist.go:357-361 | words joined by single spaces are exactly the fields the parser splits a line into |
| GoStrings.FieldsAreWords | denylist.go:357-361 | whatever white space, one-byte or multi-byte, stands around and between words, the fields are the words |
| GoStrings.HexDecodeExactly | denylist.go:423-435 | decoding succeeds exactly on hexadecimal texts, lower or upper case, and gives the bytes they stand for |
| GoStrings.UnescapeExactly | entry.go:95-101 | a text is unescaped exactly if it consists of escapes in either case, plus signs and other bytes, and then to what these mean |
| GoStrings.UnescapeOfEscape | entry.go:98-101 | unescaping undoes percent-escaping for every byte string |
| BlockedPaths.ExactPathRoundTrip | entry.go:77-108 | the escaped text of a path is read as that path, trimmed, and never as a prefix, even if the path ends in a star |
| BlockedPaths.PrefixPathRoundTrip | entry.go:85-108 | escaped text followed by a plain star is read as a prefix path, the slash before the star dropped |
| BlockedPaths.PathExactly | entry.go:77-108 | any path text is accepted exactly if it unescapes, and is read as a prefix exactly if its last byte is a plain star |
| BlockedPaths.TrimSlashesTrims | entry.go:102-105 | one slash is trimmed off each end, and nothing else |
| BlockedPaths.MatchesClean | entry.go:111-136 | against a path without slashes at its ends a rule matches by equality, by prefix if it is one, or always if its path is the lone star |
| BlockedPaths.PrefixMatchExtends | entry.go:129-130 | a matched path stays matched by a prefix rule when extended |
| Entries.CheckPathStatus | entry.go:51-66 | the backward loop returns NotFound exactly when no entry matches, else the verdict of the match that no later match follows |
| Entries.LastMatchIgnoresEndSlash | entry.go:51-66 | a slash added before or after a clean path changes no list's answer |
| Entries.PrefixBlocksAreUpwardClosed | entry.go:51-66 | a list of prefix block rules blocks every clean extension of a path it blocks |
| Entries.Clone | entry.go:31-45 | copying the hints key by key gives an equal entry with a hint map of its own, and leaves the original alone |
| Multiformats.LawsAreConsistent | denylist.go:323-337 | the assumed laws of base58 and CID text contradict nothing |
| Rules.LastHintWins | denylist.go:359-368 | a key maps to the value of the last hint for it |
| Rules.HeaderHintsRemain | denylist.go:350-354 | a key that no hint of the rule mentions keeps the header's value, or stays absent |
| Rules.AcceptedHints | denylist.go:344-368 | the entry of every accepted line carries the header's hints overridden by its own, and no other keys |
| Rules.PanicsOnBlankLines | denylist.go:338-358 | the lines on which parsing fails outright are exactly the non-empty ones of white space alone |
| Rules.AcceptedIsWellFormed | denylist.go:344-552 | an accepted rule has the line's number and text, and target, key, multihash and path fit together for its kind |
| Index.AddAppendsShare | denylist.go:439-552 | adding a rule appends to every slot of every index exactly the entries the rule derives for that slot |
| Index.SlotHoldsShares | denylist.go:439-552 | after any rules, every slot holds exactly the entries they derive for it, in order |
| Index.KeysAreBase58 | denylist.go:445-449 | in the CID and double-hash indexes every entry sits under the base58 text of its multihash |
| Index.EntriesOfRules | denylist.go:551 | `Entries` holds one entry a rule, in order |
| Index.Conservation | denylist.go:461-551 | the indexes hold as many entries as `Entries`, plus one for every double-hash rule read in both ways |
| Index.ParserIsSound | denylist.go:338-552 | every line the parser accepts gives a well-formed rule with that line's number |
| Index.LinesIncrease | denylist.go:307-309 | line numbers grow strictly along the accepted rules and stay within the lines read |
| Index.RulesOfLines | denylist.go:307-313 | the rules of a list of lines are exactly those that each line gives under its own number |
| BlocksDB.InPlaceAppends | blocksdb.go:30-34 | an append with room writes in place: the key has the new entry, every slice returned earlier keeps its elements |
| BlocksDB.MovedAppends | blocksdb.go:30-34 | an append without room moves to a new array of any larger capacity, with the same outcome |
| BlocksDB.BlocksDB.Load | blocksdb.go:15-26 | returns the key's slice if there is one, and that slice is a snapshot of its contents |
| BlocksDB.BlocksDB.Store | blocksdb.go:30-34 | appends the entry to the key's slice, in place or to a new array, leaves other keys alone, and keeps every earlier snapshot |
| BlocksDB.SnapshotsAreStable | blocksdb.go:15-34 | a slice returned by Load keeps its elements through any number of later Store calls |
| Denylist.Denylist.AddHashKey | denylist.go:439-453 | stores a double-hash entry under its function and base58 key, making the function's store on first use |
| Denylist.Denylist.ParseDoubleHash | denylist.go:384-479 | stores the rule under its multihash reading, its hexadecimal reading or both, and changes nothing when both fail |
| Denylist.Denylist.ParseIpfs | denylist.go:481-512 | a CID rule is stored by multihash; an undecodable CID, a safe CID or a bad path leaves everything unchanged |
| Denylist.Denylist.ParseIpns | denylist.go:513-531 | an IPNS rule is stored by the hash of its CID, or else by name |
| Denylist.Denylist.ParsePath | denylist.go:532-549 | a path rule goes to the prefix list or under its raw text |
| Denylist.Denylist.ParseLine | denylist.go:338-554 | all or nothing: the rules grow by the line's rule if it has one, and otherwise every index and `Entries` are unchanged |
| Denylist.CollectHints | denylist.go:350-368 | the hint loop computes the merge that the hint lemmas describe |
| Lookup.ReadIsScan | blocksdb.go:15-26 | one read of one index finds what scanning all accepted rules finds, by multihash, name, text or hash |
| Lookup.NothingUnderUndecodable | denylist.go:787-802 | under an undecodable 46-byte `Qm` text there is never a rule, so using it as a key undecoded is sound |
| Denylist.Denylist.CheckDoubleHashWithFn | denylist.go:620-638 | answers as the last rule whose double hash is that of the key, and NotFound when the key cannot be hashed |
| Denylist.Denylist.CheckDoubleHash | denylist.go:640-652 | the first defined answer of the hash functions in the order in which they come up |
| Denylist.Denylist.IsSubpathBlocked | denylist.go:570-593 | the last exact rule with this text decides, else the last matching prefix rule |
| Denylist.Denylist.IsCidBlocked | denylist.go:930-983 | answers as a scan of the accepted rules: same multihash, then the legacy double hash, then the others; that is, by the last rule covering the CID in the first covered tier |
| Denylist.Denylist.IsIpfsIpldPathBlocked | denylist.go:756-872 | the same for a CID text and subpath, whether or not the text is decoded before the first lookup |
| Denylist.Denylist.IsIpnsPathBlocked | denylist.go:656-742 | the same for an IPNS name that may be a CID, a domain name or a DNSLink label |
| Denylist.Denylist.IsPathBlocked | denylist.go:885-926 | the multi-index answer for any path equals scanning the accepted rules tier by tier: the last rule that covers the path in the first tier in which any does; with indexable exact path rules the exact tier goes by meaning |
| Answers.PathAnswered | denylist.go:656-926 | for an ipfs, ipld or ipns path: which rules cover it in which tier, with the very texts that are hashed; when it is an error; NotFound exactly if nothing covers it |
| Answers.CidAnswered | denylist.go:930-983 | the same for a CID |
| Answers.CidRuleDecides | denylist.go:797-812 | unless a path rule is there, a CID rule that comes last answers exactly the ipfs and ipld paths of its multihash whose subpath it matches |
| Answers.UncoveringRule | denylist.go:885-926 | a rule that covers a question in no tier leaves its answer alone |
| Answers.NamespacesAgree | denylist.go:912-918 | the ipld and the ipfs path of a CID and subpath get the same answer |
| QueryLaws.RuleOverrides | entry.go:51-66 | a rule, such as an exception, overrides all earlier rules for the probes it hits until a later rule hits |
| QueryLaws.RuleDecidesQuery | denylist.go:885-926 | what an appended rule does to a whole query: it decides, unless a tier before the first that it hits is defined already |
| QueryLaws.OthersDoNotMatter | blocksdb.go:30-34 | rules with another key or a path that does not match leave the answer of a probe alone |
| QueryLaws.QueryUnchanged | denylist.go:885-926 | rules that none of a query's probes hit leave its answer alone |
| ExactPaths.RealSubpathsAreJoins | denylist.go:886-897 | the subpaths a path can have: no slash at the ends and no two in a row |
| ExactPaths.CallsByMeaning | denylist.go:570-581 | for any text passed to a direct call, finding exact rules by text agrees with matching by meaning, at every point of the file, exactly when every rule that matches has that text |
| ExactPaths.ExactPathsByMeaning | denylist.go:542-549 | the two agree for all subpaths of paths exactly when every exact rule is indexable: its text is its path, or its path is none that a path can have |
| ExactPaths.PathQueriesByMeaning | denylist.go:885-926 | all queries for ipfs, ipns and ipld paths are answered by meaning, at every point of the file, exactly when every exact rule is indexable |
| ExactPaths.EndSlashesMissExactRules | denylist.go:570-581 | a direct call with a slash added to a subpath is answered by the prefix rules alone, though all rules mean the same for it |
| ExactPaths.SlashedRule | denylist.go:542-549 | a rule such as `/foo` is accepted and found by a direct call with its text, but by no path query |
| ExactPaths.EscapedRule | denylist.go:542-549 | a rule in which something had to be escaped, such as `a%20b`, is accepted and no call finds it; any other is found by its own subpath |
| ExactPaths.PlainlyFound | denylist.go:570-581 | a rule without escapes, such as `foo`, is found by its own subpath, and missed by a direct call with a slash behind it |
| ExactPaths.NeverFound | denylist.go:575-581 | no call finds an exact rule exactly when its path does not match its own text |
| ExactPaths.MixedFileLive | denylist.go:570-593 | a file of an exception and a prefix block for a subpath, read while that is asked for, gives a status that held at no moment |
| QueryLaws.RoutesAgree | denylist.go:885-926 | asking for a CID and for its two-segment path, ipfs or ipld, gives the same answer |
| QueryLaws.SameHashSameAnswer | denylist.go:930-983 | CIDs with the same multihash get the same answer when the legacy lookup misses for both |
| LiveQueries.DefinedStays | denylist.go:254 | while rules are added a probe that was defined never becomes undefined |
| LiveQueries.LiveNotFoundIsRight | denylist.go:885-926 | NotFound from a query whose reads are spread over a growing list was right when the query started |
| LiveQueries.LiveStatusExactly | denylist.go:885-926 | every live status is that of some moment of the query exactly when each rule that arrives and hits a probe the query may get to says the status of some moment |
| LiveQueries.LiveStatusIsSomeStatus | denylist.go:885-926 | if the rules that the query's probes hit all block, or all allow, the live status is the status at the start or the end of the query |
| LiveQueries.AgreeingArrivalsHold | denylist.go:885-926 | such rules meet the exact condition |
| LiveQueries.LiveStatusCanBeNoStatus | denylist.go:570-593 | with a block and an exception a live answer can be Blocked although it was Blocked at no moment |
| QueryLaws.FirstDefinedOfPermutation | blocker.go:62-97 | whatever the order, NotFound means that all miss, and any other answer is one list's own |
| QueryLaws.StatusIndependentOfOrder | blocker.go:56-72 | the status is the same in all orders exactly when the defined statuses agree |
| QueryLaws.MissInAllOrders | blocker.go:62-97 | over two orders of the same lists, one misses exactly when the other does |
| QueryLaws.OrderOfSources | blocker.go:62-97 | the status is the same in all orders of the lists exactly when their defined statuses agree |
| QueryLaws.DoubleHashMiss | denylist.go:640-652 | the double-hash tier misses in one order of its functions exactly when it misses in the other |
| QueryLaws.DoubleHashOrder | denylist.go:640-652 | its status is the same in all orders of the functions exactly when their defined answers agree |
| HashFunctions.InUse | denylist.go:439-453 | a denylist has a store for exactly the hash functions that its rules use |
| HashFunctions.UnusedFunctionMisses | denylist.go:620-638 | a function that no rule uses answers NotFound |
| HashFunctions.PathQueryInUse | denylist.go:885-926 | a path query is answered by the functions in use, whatever others its order has |
| HashFunctions.CidQueryInUse | denylist.go:930-983 | the same for a CID |
| Denylist.Denylist.LaterFunctionsMiss | denylist.go:640-652 | an order with functions added later answers, for the rules of the start, as an order of the start |
| Blocker.Blocker.IsPathBlocked | blocker.go:86-97 | the first defined answer of the lists in the order in which they come up; NotFound exactly when all lists miss |
| Blocker.Blocker.IsCidBlocked | blocker.go:62-72 | the same for a CID |
| DnsLink.ToDNSLinkFQDN | denylist.go:595-618 | the loop computes the greedy decoding, bytes from 0x80 on being written as two |
| DnsLink.DnsLinkBijection | denylist.go:595-618 | for all byte strings the decoder is a bijection from dot-free labels onto the names in which no dot is followed by a dot or a dash and bytes from 0x80 on are widened ones; decoding after encoding is the identity exactly on those |
| DnsLink.DecodedAscii | denylist.go:595-618 | on ASCII the names are those in which no dot is followed by a dot or a dash, and the inverse is that of the specification |
| Names.FoundByOwnName | denylist.go:513-531 | a rule for a name is found by a query for the same name exactly when it is a CID, has a dot, or is ASCII without a dash |
| Names.ReachingNames | denylist.go:673-685 | a name with a dot reaches its own rule only, a label the rule of the name it encodes |
| Names.LabelAgreesWithName | denylist.go:656-700 | a DNSLink label and its name get the same answer when the IPNS tier has one |
| Names.LabelAgreesExactly | denylist.go:656-742 | a label and its name get the same answer at every point of any file exactly when an IPNS rule for the name stands before every double-hash rule that hits a hash of either |
| Names.HashedNameMissesLabel | denylist.go:699-734 | in any list in which IPNS rules and hashes of the label miss, the label is not found and the name is found exactly if some rule hits one of its hashes |
| SafeCids.BlockableCids | denylist.go:488-511 | some CID rule blocks a CID exactly when a CID of the same multihash is not one of the safe ones |
| SafeCids.SafeCidsStay | denylist.go:488-511 | a multihash all of whose CIDs are safe is hit by no CID rule of any file |
| SafeCids.SafeRuleSkipped | denylist.go:494-499 | a CID rule for one of the seven safe texts, however marked and with whatever subpath, is left out |
| SafeCids.SkippedExactly | denylist.go:338-342 | left out without an error are exactly empty lines, lines that begin with a hash sign, and rules for safe CIDs |
| RoundTrip.RuleRoundTrip | denylist.go:338-511 | a printed CID rule, with any mark, protocol, escaped subpath or none, star and hints, parses to one entry with exactly these |
| RoundTrip.NameRuleRoundTrip | denylist.go:513-531 | a printed IPNS rule parses to one entry with its parts, under the hash of its CID or the name as it stands |
| RoundTrip.HashRuleRoundTrip | denylist.go:384-479 | a printed double-hash rule is accepted exactly if its text is a base58 multihash of a known function or 64 digits of either case, and is stored under exactly these readings |
| RoundTrip.PathRuleRoundTrip | denylist.go:532-552 | a printed path rule, exact or prefix, whose subpath begins with neither dash nor slash, parses to one entry with exactly its parts |
| RoundTrip.PathKept | entry.go:98-108 | the subpath comes back unchanged exactly when no slash stands at its ends |
| RoundTrip.EscapedStarIsNoPrefix | entry.go:85-96 | only a star that was not escaped makes a prefix rule |
| RoundTrip.ExactRuleMeaning | entry.go:111-136 | the rule read back matches exactly its own subpath, except that a lone star matches all |
| Reader.LineReader.ReadString | denylist.go:272 | whatever the sizes of the reads: every byte is returned or kept buffered and paid once; the end is reported only with the budget spent or the file exhausted |
| Follower.TurnKeepsInv | denylist.go:267-318 | every turn keeps: the bytes taken are the lines, the held part and the read-ahead, and the budget accounts for the last two |
| Follower.LinesAreFirstLines | denylist.go:283-309 | the parser gets the first lines of the file, each once and in order, however the bytes arrived |
| Follower.DrainedLines | denylist.go:285-297 | with the file exhausted these are all its lines, and the unterminated tail is held back |
| Follower.OnlyLongLinesRejected | denylist.go:274-280 | a line given up on is longer than the budget plus the read-ahead at its beginning, so a line of at most `maxLineSize` bytes never is; an unfinished tail given up on has at least that length |
| Follower.LimitIsExact | denylist.go:267-318 | a line handed over is at most, and a line given up on is more than, the budget plus the read-ahead at its beginning |
| Follower.AcceptedWithReadAhead | denylist.go:212-220 | a line any number of bytes over the budget, below the buffer's size, can be accepted, thanks to as many bytes of read-ahead |
| Follower.RejectedWithoutReadAhead | denylist.go:212-220 | any line over the budget can be given up on in the same place when the reads fall otherwise |
| Follower.DrainedMeansShortLines | denylist.go:285-297 | a follower that exhausted the file met no line or tail of `maxLineSize` plus the buffer size or more: those are always given up on |
| Follower.NextReading | denylist.go:272-297 | a call of ReadString on the growing file is a turn, and returning a line uses up input |
| Follower.FollowLines | denylist.go:267-318 | the end is reached by turns from the beginning; the rules added are those of the lines handed over, numbered from the header on; it stops exactly at the end of the file that it meets after all its waits, and gives up or crashes only for its reason, before |
| Follower.EndsAreCounted | denylist.go:285-292 | the count of ends of the file is that of the turns that met it with budget left |
| Header.Decode | denylist.go:59-84 | a header is found exactly when the first separator line of what is there ends within the first mebibyte; its bytes and line count are those of the lines before; the file may grow meanwhile |
| Header.SplitAtBoundary | denylist.go:189-198 | header, separator and body are the whole file, and the offset sought to is where the body begins |
| Header.LineNumbers | denylist.go:220 | with or without header, the number a body line gets is one more than the newlines before it in the file |
| Header.ReadHeader | denylist.go:171-203 | after the over-reading decode the file is back at the start of the body; a bad document or version is an error |
| Header.Open | denylist.go:114-168 | a denylist read from a file, growing or not, has exactly the rules of the body lines handed over, after as many waits as asked for |
| Subscription.ReplyKeepsPrefix | subscription.go:111-116 | what arrived of a correct partial content is appended to the byte, and the local file stays a prefix of the remote one; anything else changes nothing |
| Subscription.HTTPSubscriber.DownloadAndAppend | subscription.go:78-124 | asks for the bytes from the local size on, appends them only as partial content, and fails exactly on lost or error replies |
| Subscription.HTTPSubscriber.Subscribe | subscription.go:52-71 | the local file is what one sync a tick makes of it |
| Subscription.SyncsKeepPrefix | subscription.go:52-71 | over any number of ticks the local file stays a prefix of the growing remote file |
| Subscription.SyncsGrow | subscription.go:52-71 | and it only grows |
| Subscription.CompleteSyncCatchesUp | subscription.go:52-71 | after a tick that was answered completely the local file has all that the remote had then |
| Pipeline.StepKeepsSafe | subscription.go:52-124 | every step of publisher, sync, follower or watcher keeps the pipeline safe and loses no rule |
| Pipeline.PipelineSafety | denylist.go:267-318 | in every reachable state consumed bytes, local and remote file are prefixes of one another, the rules are those of the first lines of the remote body, and they only grow |
| Pipeline.SettledPipeline | subscription.go:111-116 | once synced and drained, the rules are those of all complete lines of the remote body |
| Pipeline.RulesInOrder | denylist.go:307-309 | in every reachable state each rule is well formed for its kind, and line numbers strictly increase along `Entries` |
| Pipeline.EndedStaysEnded | denylist.go:275-280 | a follower that gave up, stopped or crashed never adds a rule again |
| Pipeline.HeaderStays | denylist.go:197-202 | a header found when the file was opened is the header of every longer file |
| Pipeline.NumbersFitRemote | denylist.go:220 | in every reachable state, opened with a header or without, the numbers of parsed lines are right for the remote file |

## Left out

- base58, base32, CID, multihash and hash functions: fields of a record with stated laws; nothing is proved about collisions.
- YAML: the header text is mapped to a version and hints by an arbitrary function; name, author and description are not modelled.
- boxo paths: a query starts from its segments; turning text into a path is an arbitrary function that may fail.
- Echoed response fields: Path, Cid, Filename and Error of a response are not modelled; an answer is a status with its entry.
- File opening, closing, sockets, timers and file events: they appear only as arbitrary steps; read errors other than the end of the file are not modelled.
- Data races on Go maps and slices: every index read and every store is one atomic step.
- Filling a Blocker from files, with its collection of errors: opening one file is modelled, the loop over files is not.
- Line numbers: unbounded here, 64-bit in the code.
- Precedence of lists by position: not what the code does; order independence is proved instead.
- The wrappers for blockservice, name system and resolver, the Kubo plugin, the commands, the directory walk and status formatting: forwarding or input and output.
- Sharing of hint maps other than by Clone: indexed entries are values; the code never writes to a hint map after parsing.
- Dot segments: the segments of a query are any non-empty slash-free texts, `.` and `..` included, which boxo may resolve before.
