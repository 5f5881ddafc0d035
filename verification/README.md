# PanoptiDNS: a model of the address-to-name mapping and its proofs

PanoptiDNS answers reverse (`PTR`) and forward (`AAAA`) queries for whole IPv6 networks without a
zone file: every answer is computed from the configuration and a 128-bit address. This project
models that computation in Dafny and proves what it promises over every accepted configuration,
every query name and every address.

| file | what it models |
|---|---|
| `Bits`, `Ascii`, `Names`, `Text`, `Wrappers` | 128-bit arithmetic one binary digit at a time, ASCII folding and trimming, domain names, string search, split and join |
| `Nibble` | `src/nibble.rs`: addresses to `ip6.arpa` names and host digits, and back |
| `ConfigModel` | `src/config/mod.rs`: templates, zones, the invariants a configuration satisfies |
| `Lookup`, `Synth`, `RoundTrip` | `src/zone/lookup.rs`, `src/zone/synth.rs`: matching and printing, and their inverse laws |
| `Resolution`, `Ambiguity`, `Served` | `src/zone/mod.rs`: the outcome of a query; when the forward mapping of a whole configuration is one-to-one, and when the names the server really prints lead back |
| `ConfigText`, `ConfigParse`, `ParseFacts`, `Keywords`, `Repeats` | `src/config/parse.rs`: the line parser, what each line does by the words on it, and which repeated lines it reports |
| `TemplateText`, `MaskSort`, `ConfigCompile`, `CompileFacts`, `BlockText` | `src/config/compile.rs`: validation, the stable sort, acceptance, and the zone each block's text denotes |
| `FileOrder`, `AnswerOrder` | what the order of the `network` blocks changes, and what it does not |
| `Pitfalls` | accepted configurations whose names are ambiguous or run too long |
| `Handler` | the decision part of `src/server/handler.rs` |
| `Upstreams` | `src/upstream.rs`: record filter, circuit breaker, pool of 64 permits |
| `RateLimit` | `src/rrl.rs`: client keys and the slip counter |
| `Ipv6Text`, `Mapper` | `site/mapper.js`: IPv6 text reader and printer, and the browser's copy of the mapping |

Code that loops or updates state is a method or a class, proved equal to a specification function
or to a step of a state machine; code made of expressions is a function. What the source promises
is then proved about those functions, and no invariant of the request path is assumed: each is
established by the compiler's own loops (`CompileFacts.CompiledIsValid`).

Main results:

- Matching is the exact inverse of printing for every compiled zone (`RoundTrip.ForwardExact`).
  Over a whole configuration the names of all addresses of all networks decode to their own zone
  and address if and only if no two templates overlap and none begins with the label `*`
  (`Ambiguity.ForwardOneToOne`), a condition on the texts alone.
- For the names the server really prints, those of addresses that no longer prefix takes over, the
  target of a PTR answer resolves back to its zone and address if and only if the zone's template
  does not begin with `*` and no zone before it fits that target (`Served.CircleExact`). Where no
  network lies inside another this is the condition on the texts again (`Served.FlatOneToOne`).
- A label suffix of a reverse name is the same thing as a masked address (`Nibble.SuffixIsMask`);
  the scan over sorted zones is longest-prefix match (`Resolution.LongestPrefix`), whatever the
  order of the file (`FileOrder.FileOrderIrrelevant`). What a name is looked up as depends on
  that order exactly when two zones share the longest prefix length whose templates match it
  (`AnswerOrder.OrderMattersExactly`).
- A file is accepted if and only if every line reads, every block denotes a zone and no two of
  those clash, and the zones served are then the ones its text denotes: prefix, length, pattern and
  upstream (`BlockText.ParseText`, `BlockText.AcceptedFromText`). The blocks are the lines whose
  first word is `network` (`Keywords.BlocksAreSaid`); each of the fourteen keywords, in any case,
  has its own effect and no other (`Keywords.NetworkLine` and its neighbours). The parser loses no
  line (`ParseFacts.NothingIsLost`) and reports repetitions exactly (`Repeats.RepeatExact`).
- Authority and negative answers are exact for every query, and every reply is fixed record by
  record (`Handler.Decide`, `Resolution.ResolveExact`).
- An upstream can put into a PTR answer only records of class IN that it owns under the name asked
  for and the label `upstream`, the first eight of them, renamed (`Upstreams.RelayExact`).
- The breaker's window, trips and resets are characterised over every history and every run of
  interleaved lookups: only timeouts open it, eight in a row, and any other end of a lookup closes
  it (`Upstreams.RunOpenExact`, `Upstreams.FewTimeoutsStayClosed`). Unless one already in flight succeeds, none starts for ten seconds after a
  trip (`Upstreams.NoStartWhileOpen`); at most 71 start before one, which is reached
  (`Upstreams.AtMost71Starts`, `Upstreams.SeventyOneIsReached`).
- The browser's IPv6 reader and printer are inverse (`Ipv6Text.Fmt6`), and its mapping agrees with
  the server's exactly when the placeholder is in capitals and no dot ends the pattern
  (`Mapper.ImplementationsAgree`).

Where the code differs from what its comments, its documentation or a reader would expect, the
model follows the code:

- `src/config/mod.rs` and `src/zone/lookup.rs` compare label counts so that a name one label off
  cannot match. The DNS library leaves a leading `*` out of that count, so a template whose first
  label is `*` never matches the names it prints and matches each of them with one arbitrary label
  more (`Pitfalls.StarRunsLong`). Such templates are accepted (`Pitfalls.StarIsAccepted`), and they
  are the only way to an authoritative answer outside every configured namespace
  (`Pitfalls.OverrunExact`, `Pitfalls.StarOverruns`).
- The duplicate-pattern check compares texts, so a trailing dot escapes it
  (`Pitfalls.DotEscapesCheck`), and so does a digit written in front of the placeholder; then some
  printed name leads elsewhere unless the narrower network is the very part of the wider one that
  the digit names (`Pitfalls.PrefixDigitsCollide`).
- A reverse name asked for another type is reported not to exist, unless it happens to fit a
  forward template (`Resolution.ReverseNameOtherType`, `Ambiguity.ReverseNameMissing`).
- With a SOA configured, an authoritative empty answer carries exactly one SOA record if and only
  if some namespace encloses the name and the query is not one for an apex (`Handler.Decide`). An
  apex gets an empty answer, without a SOA, only when asked for name servers and none is configured
  (`Handler.ApexNegative`).
- A setting that holds one value is reported when it is given again, in scope (`Repeats.RepeatExact`),
  so each is kept at most once (`Repeats.SettingsOnce`). The flag `rrl off` is exempt: it may be
  repeated without a report (`Repeats.FlagCounts`, `Repeats.RepeatedFlag`). `listen`, `network` and
  `ns` are lists and may be repeated by design.

## Model

| member | source | states |
|---|---|---|
| Nibble.HexValExact | src/nibble.rs:29-36 | decoding a hex digit is the case-insensitive inverse of the digit table |
| Nibble.MaskIsClear | src/nibble.rs:44-51 | on nibble boundaries masking with `mask_bits` clears the low nibbles and its complement keeps exactly those |
| Nibble.PtrNameToAddr | src/nibble.rs:74-104 | the loop computes the address a name denotes, with every rejection of the source |
| Nibble.PtrAddrExact | src/nibble.rs:53-104 | a name denotes `a` if and only if it is the printed 32-nibble name of `a` up to ASCII case |
| Nibble.PtrAddrBound | src/nibble.rs:74-104 | whatever a reverse name denotes fits in 128 bits |
| Nibble.NetmaskToPtrName | src/nibble.rs:122-142 | the loop yields the reverse zone name for aligned masks up to 128 and nothing otherwise |
| Nibble.PtrNameFits | src/nibble.rs:122-142 | a reverse zone name is always a legal domain name, so building it cannot fail |
| Nibble.SuffixIsMask | src/nibble.rs:110-142 | for a name that denotes `a`, the network's zone name is a label suffix if and only if `a` masked is the prefix |
| Nibble.HostDigitsExact | src/nibble.rs:153-167 | the host digits are exactly the low nibbles of the address at the advertised width, zeros included |
| Nibble.DigitsToHost | src/nibble.rs:176-186 | the loop computes the host part of exactly that many hex digits, and rejects any other length or character |
| Nibble.HostOfExact | src/nibble.rs:176-186 | digits denote `h` if and only if, folded, they are the fixed-width hex of `h` |
| Nibble.DashGroup | src/nibble.rs:198-210 | the loop groups digits in fours with dashes |
| Nibble.UndashGroup | src/nibble.rs:221-240 | the loop strips exactly the expected dashes or fails |
| Nibble.UngroupExact | src/nibble.rs:198-240 | ungrouping yields `d` if and only if the input is the grouping of `d`: no dash missing, misplaced or extra |
| Names.FitDependsOnLengths | src/config/mod.rs:125-127 | whether labels form a legal name depends on their lengths only (section 2.3.4 of RFC 1035) |
| ConfigModel.Render | src/config/mod.rs:105-128 | the loop renders every label, literals verbatim and the digits plain or grouped |
| ConfigModel.WidestProbeSuffices | src/config/compile.rs:534-544 | a template renders the all-`f` digits if and only if it renders any digits of that width, dashes included |
| ConfigModel.ParentIsTail | src/config/mod.rs:78-98 | the apex is what follows the digits label in every rendered name |
| ConfigModel.RenderableHasParent | src/config/mod.rs:78-98 | a template that renders has a legal apex |
| ConfigModel.Apexes | src/config/mod.rs:303-313 | the double loop collects each zone's reverse origin and forward apex once |
| ConfigModel.ApexesExact | src/config/mod.rs:303-313 | a name is listed, in some spelling, if and only if some zone has it as origin or apex |
| ConfigModel.ApexesDistinct | src/config/mod.rs:303-313 | no apex is listed twice, not even in two spellings |
| Lookup.MatchOneZone | src/zone/lookup.rs:64-99 | the loop over zipped labels equals the specification, mismatches and missing digits included |
| RoundTrip.StripBoth | src/zone/lookup.rs:21-32 | stripping a prefix and a suffix succeeds exactly when both frame the label without overlap, and leaves the middle |
| RoundTrip.DigitsLabelExact | src/zone/lookup.rs:75-94 | a digits label matches with host part `h` if and only if it spells the rendered label of `h` |
| RoundTrip.ZoneAddresses | src/zone/lookup.rs:95-98 | prefix or host part is their sum, lies in the network, and gives the host part back |
| RoundTrip.ForwardExact | src/zone/lookup.rs:64-99 | matching a name finds `addr` if and only if `addr` is in the network and the name is an accepted spelling of its printed name |
| RoundTrip.ForwardInZone | src/zone/lookup.rs:64-99 | whatever a template decodes is an address of the zone's own network |
| RoundTrip.RoundTripExact | src/zone/synth.rs:28-31 | the printed name decodes to the address again if and only if the address is in the network and the template does not begin with `*` |
| RoundTrip.NamesDiffer | src/zone/synth.rs:28-31 | different addresses of a zone never print the same name in any spelling |
| RoundTrip.MatchSameName | src/zone/lookup.rs:64-99 | recasing a query name does not change what it decodes to |
| Synth.ForwardNameTotal | src/zone/synth.rs:28-47 | for a compiled zone printing never fails, so a PTR record always exists |
| Resolution.LongestPrefix | src/zone/lookup.rs:41-46 | the scan finds a zone if and only if it is the containing zone of strictly greatest mask |
| Resolution.MatchPtrExact | src/zone/lookup.rs:53-56 | a name is reverse-matched with an address if and only if it is, in any case, the 32-nibble name of that address, and then with the longest-prefix zone for it |
| Resolution.ResolveExact | src/zone/mod.rs:38-66 | the outcome by record type: a reverse match answers PTR and ANY with one PTR record of the printed name, a forward match AAAA and ANY with one AAAA record and any other type with nothing, other names do not exist or lie in no zone |
| Resolution.ContainingExact | src/zone/lookup.rs:116-121 | the zone a name lies in is the first whose reverse origin or forward apex encloses it |
| Resolution.OrderIndependent | src/zone/lookup.rs:41-46 | two valid configurations with the same zones choose the same zone for every address |
| Resolution.ReverseEndToEnd | src/zone/mod.rs:38-46 | a PTR query for an address of a configured network yields exactly one record, owned by the name asked for, whose target decodes to the address again unless the template begins with `*` |
| Resolution.CaseInsensitive | src/zone/mod.rs:38-66 | recasing a query name changes nothing but the echoed owner (section 3 of RFC 4343) |
| Resolution.ReverseEnclosed | src/zone/lookup.rs:53-56 | a matched reverse name lies under the reverse origin of the zone that matched |
| Resolution.ForwardEnclosed | src/zone/lookup.rs:116-121 | a matched forward name lies under the apex, unless the template begins with `*` |
| Resolution.OverrunNeedsStar | src/zone/lookup.rs:103-121 | a match outside every namespace needs a `*` template and a name one label too long |
| Resolution.ReverseNameOtherType | src/zone/mod.rs:38-66 | the name of an address asked for another type is reported missing exactly when no forward template produces it, although a PTR query for it is answered |
| Ambiguity.PatternExact | src/zone/lookup.rs:69-94 | a label is accepted exactly when it fits, cell by cell, the pattern of fixed characters and hex digits |
| Ambiguity.ZonePatternExact | src/zone/lookup.rs:64-99 | a zone accepts a name exactly when every label fits its pattern |
| Ambiguity.OverlapExact | src/zone/lookup.rs:64-99 | two zones accept a common name if and only if their patterns agree cell by cell |
| Ambiguity.ComesBackExact | src/zone/lookup.rs:103-108 | a printed name is looked up as its zone and address exactly when that zone is no `*` zone and no zone before it matches the name |
| Ambiguity.ForwardOneToOne | src/zone/lookup.rs:103-108 | the names of all addresses of all networks, also of those a longer prefix takes over, come back as their zone and address if and only if no template begins with `*` and no two overlap |
| Ambiguity.FullCircle | src/zone/mod.rs:38-66 | under that condition the PTR target of every address, asked for AAAA, is answered with that address |
| Ambiguity.ReverseNameMissing | src/zone/mod.rs:38-66 | the name of an address asked for another type is reported missing if and only if it fits no template label by label |
| Served.ServedExact | src/zone/lookup.rs:103-108 | the name printed for an address leads back to its zone and address if and only if the template does not begin with `*` and no zone before it fits the name; short of `*` the same holds for the address alone |
| Served.CircleExact | src/zone/mod.rs:38-66 | the target of a PTR answer, asked for AAAA, is answered from the same zone with the same address exactly under that condition |
| Served.FlatOneToOne | src/zone/lookup.rs:103-108 | where no network lies inside another, every printed name leads back if and only if no template begins with `*` and no two overlap |
| Served.AbsorbingServed | src/zone/lookup.rs:103-108 | two plain zones, one with hex digits more before the placeholder: every printed name leads back if and only if the narrower network is the part of the wider one those digits name |
| Ambiguity.PrefixFreeDoNotOverlap | src/zone/lookup.rs:103-108 | zones whose lowered digit-label prefixes do not begin one another never overlap |
| ConfigText.ErrorAtInside | src/config/parse.rs:59-68 | a diagnostic on part of a value stays inside the value, and is exact for a part inside it |
| ConfigParse.MatchWords | src/config/parse.rs:270-290 | the loop matches keyword words without case, separated by white space, and returns what they consume |
| ConfigParse.ParseLine | src/config/parse.rs:316-434 | one line changes the raw configuration and the errors as its reading says |
| ConfigParse.Attach | src/config/parse.rs:377-434 | the scope checks, duplicate checks and attachment of a value to its target |
| ConfigParse.FillSlot | src/config/parse.rs:401-419 | a slot of the latest block is filled once, and a second value is an error naming the first line |
| ConfigParse.Parse | src/config/parse.rs:309-438 | the loop over lines computes the raw configuration and the errors of the file |
| Keywords.LinesExact | src/config/parse.rs:309-316 | the lines are the pieces of the file between line feeds, each without the carriage return before a feed, the last one kept unless empty; the pieces put back together are the file |
| Keywords.StripExact | src/config/parse.rs:252-290 | a keyword's value is found if and only if the line starts with its words, in any case and between white space, and text follows; it is that text, trimmed |
| Keywords.FlagExact | src/config/parse.rs:293-295 | a line is the flag if and only if it consists of the flag's words, in any case |
| Keywords.NetworkLine | src/config/parse.rs:217-223 | a line that says `network` and a text opens a block with that text, folded |
| Keywords.ListenLine | src/config/parse.rs:224-230 | a line that says `listen` and a text adds that text, folded, to the listen addresses |
| Keywords.ResolvesLine | src/config/parse.rs:147-153 | a line that says `resolves to` and a text gives the latest block that text as written, or is reported: before any block, or when the block has one |
| Keywords.UpstreamLine | src/config/parse.rs:154-160 | the same for `with upstream`, folded |
| Keywords.GlobalLine | src/config/parse.rs:161-244 | each of the ten global keywords, by its literal words, sets its own key before the first block, once unless it is `ns`, and is reported otherwise |
| Keywords.FlagLine | src/config/parse.rs:327-344 | `rrl off` alone on a line sets the flag before the first block and is reported after it |
| Keywords.BlankLine | src/config/parse.rs:322-324 | blank lines and comments do nothing |
| Keywords.OtherLine | src/config/parse.rs:442-466 | any other line is reported at its first word: as the keyword that begins with that word, missing its value, or as unknown |
| Keywords.BlocksAreSaid | src/config/parse.rs:309-438 | the blocks of a file are exactly its lines that say `network` and a text, in order, with line number and text |
| ParseFacts.AtMostOneDirective | src/config/parse.rs:146-248 | a line fits at most one directive of the table, and none if it is the flag |
| ParseFacts.LineAccounts | src/config/parse.rs:309-438 | a line contributes something exactly when it is neither blank nor a comment, under its own number |
| ParseFacts.NothingIsLost | src/config/parse.rs:309-438 | every such line is charged exactly one listen address, network, filled slot, global or error, and nothing else is |
| ParseFacts.NetworksInOrder | src/config/parse.rs:309-438 | the blocks are the lines read as opening one, in order, value by value; `Keywords.BlocksAreSaid` says which lines those are |
| ParseFacts.ParsedAnchored | src/config/parse.rs:252-267 | every value read lies where its span says, up to folded case, the span of the flag covers the flag to the end of its line, and no caret leaves its line |
| ParseFacts.UnmatchedExact | src/config/parse.rs:442-466 | an unreadable line is reported as missing a value exactly when its first word begins some keyword, otherwise as unknown |
| Repeats.RepeatExact | src/config/parse.rs:377-434 | a line is reported as a repetition if and only if it is a directive in scope for a single value that an earlier accepted line filled, and the report names that line; other directives in scope are accepted |
| Repeats.SettingsOnce | src/config/parse.rs:420-433 | in every file each global setting other than `ns` and `rrl off` is kept at most once |
| Repeats.FlagCounts | src/config/parse.rs:327-344 | each `rrl off` line before the first block is kept, and none is reported |
| Repeats.RepeatedFlag | src/config/parse.rs:327-344 | a file that says `rrl off` twice is read without an error and holds the setting twice |
| TemplateText.SomeDigits | src/config/compile.rs:517-525 | a hit in the whole text lies within one label, so the defensive error cannot arise |
| TemplateText.OneHitWellFormed | src/config/compile.rs:431-532 | a text with exactly one hit gives exactly one digits label, at the recorded index, lowered forms in step |
| TemplateText.Rejoined | src/config/compile.rs:453-515 | putting the placeholder back and joining the labels gives the text less one trailing dot |
| TemplateText.AcceptedTemplate | src/config/compile.rs:431-547 | an accepted text gives a valid template that renders at the widest, with a legal apex and no empty label |
| MaskSort.StableSortExact | src/config/compile.rs:57-59 | the zones are sorted by descending mask and zones of one mask keep their order |
| MaskSort.StableSortPermutes | src/config/compile.rs:57-59 | sorting neither loses nor duplicates a zone |
| ConfigCompile.Compiler.CompileNetwork | src/config/compile.rs:357-428 | a network value yields its verdict, or exactly the one error the source reports; `BlockText.NetworkExact` says which network that is |
| BlockText.NetworkExact | src/config/compile.rs:357-428 | a value denotes the network `p` of length `m` if and only if it is an address text for `p`, a slash and a number text for `m`, with `m` a multiple of four strictly between 0 and 128 and no host bit set in `p` |
| BlockText.NetworkPartsExact | src/config/compile.rs:357-428 | which part of a network value is reported, with which error, for every faulty address or length |
| BlockText.NoSlash | src/config/compile.rs:358-364 | a value without a slash is reported as missing its prefix length |
| ConfigCompile.Compiler.CompileLabels | src/config/compile.rs:456-515 | the loop splits the text into labels and records the digits label |
| ConfigCompile.Compiler.CompileTemplate | src/config/compile.rs:431-547 | a pattern text yields its template, or exactly the first error the source reports |
| BlockText.PatternTextExact | src/config/compile.rs:431-547 | a pattern is accepted if and only if one placeholder occurs once and the other never, no label is empty, dashed digits come in whole groups and the widest name fits; otherwise the first of these is reported |
| ConfigCompile.Compiler.CompileZone | src/config/compile.rs:275-354 | a block yields its zone and is remembered, or yields one error and leaves the memory as it was |
| BlockText.AloneExact | src/config/compile.rs:275-354 | a block yields a zone if and only if its text denotes that zone, field by field |
| BlockText.BlockErrors | src/config/compile.rs:275-354 | which error a block with a valid network yields next to the networks and patterns seen, in the order of the checks |
| BlockText.SeenExact | src/config/compile.rs:283-340 | the line a repetition is reported against is that of a block of the file with this very network or pattern |
| ConfigCompile.Compile | src/config/compile.rs:33-68 | the loop compiles every block in order, keeps every error, and sorts |
| ConfigCompile.ZoneVerdictValid | src/config/compile.rs:275-354 | a zone that passes its checks has every property a request relies on |
| CompileFacts.CompiledIsValid | src/config/compile.rs:33-68 | whatever the blocks say, the compiled zones are valid, sorted by descending mask and of distinct networks |
| CompileFacts.AcceptExact | src/config/compile.rs:33-68 | the blocks compile without error if and only if each is right alone and no two share a network or a pattern; the zones are then theirs in order |
| BlockText.AcceptedFromText | src/config/compile.rs:33-68 | the blocks compile without error if and only if each denotes a zone and no two zones clash; the zones compiled are then the ones denoted, in order |
| BlockText.ParseText | src/config/mod.rs:265-273 | a file becomes a configuration if and only if nothing is wrong with its lines, its settings and the zones its blocks denote, and then serves those zones, longest prefixes first |
| CompileFacts.ParseConfig | src/config/mod.rs:265-273 | a configuration comes out if and only if parsing, settings and blocks are all free of errors, and it is valid |
| FileOrder.FileOrderIrrelevant | src/config/compile.rs:45-59 | rearranging the blocks of a file changes neither acceptance nor the zone found for any address |
| AnswerOrder.OrderMattersExactly | src/config/compile.rs:57-59 | what a name is looked up as is the same for every order of the zones if and only if the zone found is the only one of its prefix length to match |
| AnswerOrder.AnswersKeepOrder | src/config/compile.rs:57-59 | rearranging the blocks changes no record of any answer, as long as no two zones of one prefix length have overlapping templates |
| Pitfalls.DotIsIgnored | src/config/compile.rs:453-454 | a trailing dot changes neither the verdict on a pattern nor its template |
| Pitfalls.DotEscapesCheck | src/config/compile.rs:299-304 | two blocks with one pattern are refused, but accepted when one pattern ends in a dot, with the same template |
| Pitfalls.AbsorbedDigitsOverlap | src/config/compile.rs:299-304 | templates that differ by hex digits in front of the placeholder overlap when the host digits make up for them, whatever the other labels |
| Pitfalls.PrefixDigitsCollide | src/config/compile.rs:299-304 | two blocks whose plain patterns so differ are accepted side by side, and every printed name leads back if and only if the narrower network is the part of the wider one the digits name |
| Pitfalls.StarIsAccepted | src/config/compile.rs:431-547 | `*.` in front of a pattern is accepted exactly when the pattern is and two bytes are to spare |
| Pitfalls.StarRunsLong | src/zone/lookup.rs:64-67 | a `*` zone never matches a name it prints and matches each with any one label behind it |
| Pitfalls.OverrunExact | src/zone/lookup.rs:103-121 | a name outside every namespace is matched if and only if it is a `*` zone's printed name with one label too many |
| Pitfalls.StarOverruns | src/zone/lookup.rs:103-121 | a `*` zone that stands alone does match names outside every namespace |
| Handler.NegativeSoaExact | src/server/handler.rs:260-284 | the search yields exactly the SOA of the first zone that encloses the name, of its reverse origin if that does, and nothing if no zone encloses it |
| Handler.DecideApex | src/server/handler.rs:166-190 | an apex query is answered with exactly the SOA and NS records asked for |
| Handler.ApexRecordsExact | src/server/handler.rs:166-190 | record by record: the SOA first, if one is configured and asked for, then one NS record per configured server in order, with the TTL of the first zone or 3600 |
| Handler.ApexNegative | src/server/handler.rs:166-190 | an apex reply has no authority records; with a SOA configured it is empty only for NS without name servers |
| Handler.AuthorityAndNegatives | src/server/handler.rs:193-257 | authority, refusals and negatives of every reply the configuration determines |
| Handler.DecideResolved | src/server/handler.rs:193-257 | the reply follows the outcome, and relayed records replace the synthesized PTR where there are any |
| Handler.ResolvedByType | src/server/handler.rs:193-257 | the answer section by record type, down to owner, class, TTL and data, upstream records replacing the PTR record only for PTR |
| Handler.Decide | src/server/handler.rs:144-257 | authority is exact; answers are owned by the name asked for and fixed by the record type, at an apex record by record; an authoritative empty answer with a SOA configured carries the SOA of the first enclosing zone, with the TTL of section 3 of RFC 2308, if and only if a namespace encloses the name and the query is not for an apex |
| Handler.NoOverrunWithoutStar | src/server/handler.rs:144-257 | without `*` templates authority is exactly containment in a configured namespace |
| Upstreams.RelayedRecords | src/upstream.rs:75-94 | only the first eight allowed records survive, in order, as class IN records of the name asked for with their target, TTL raised to 30 or cut to 3600 |
| Upstreams.RelayExact | src/upstream.rs:75-105 | down to what is sent: a record is relayed if and only if it is among the first eight of class IN with PTR data whose owner is, in any case, the name asked for and the label `upstream`; a name that label does not fit behind relays nothing |
| Upstreams.Breaker.IsOpen | src/upstream.rs:119-134 | the answer and the new state of a check, the reset of an expired window included |
| Upstreams.Breaker.RecordSuccess | src/upstream.rs:137-142 | a success returns the breaker to its initial state |
| Upstreams.Breaker.RecordFailure | src/upstream.rs:145-156 | a failure counts up to saturation and trips once at the threshold |
| Upstreams.HistoryExact | src/upstream.rs:117-156 | the state is a function of the failures since the last reset |
| Upstreams.OpenIffThreshold | src/upstream.rs:117-156 | in every reachable state the window is set if and only if eight failures have accumulated |
| Upstreams.TripIsEighthFailure | src/upstream.rs:145-156 | a failure trips the breaker if and only if it is the eighth since the last reset |
| Upstreams.OpenExact | src/upstream.rs:119-134 | a check answers open if and only if the latest trip is less than ten seconds old and no success came after it |
| Upstreams.WindowPersists | src/upstream.rs:145-156 | late failures never move the end of an open window |
| Upstreams.TripsAreSeparated | src/upstream.rs:117-156 | between two trips there is a reset, and after it exactly eight failures |
| Upstreams.Upstream.BeginLookup | src/upstream.rs:218-233 | what a lookup does before it waits is one step of the machine: check, permit, name |
| Upstreams.Upstream.EndLookup | src/upstream.rs:241-273 | what a lookup does after it waits is one step: record the result, relay, return the permit |
| Upstreams.PermitsConserved | src/upstream.rs:218-273 | free permits and lookups in flight always add up to 64, in every interleaving |
| Upstreams.PoolHistory | src/upstream.rs:218-273 | in every run of interleaved lookups the breaker is in the state that the run's own checks and results, with their times, lead to |
| Upstreams.GoodEndCloses | src/upstream.rs:241-261 | in every run a lookup that ends in an answer or a negative leaves the breaker as new |
| Upstreams.FewTimeoutsStayClosed | src/upstream.rs:145-156 | in every run from a closed breaker fewer than eight timeouts since a lookup last ended otherwise leave it closed |
| Upstreams.RunHistoryOpen | src/upstream.rs:119-134 | the same openness read off the history of breaker calls the run makes |
| Upstreams.RunOpenExact | src/upstream.rs:119-134 | over the steps of a run: the breaker is open if and only if some timeout tripped it less than ten seconds ago and no lookup ended in an answer or a negative since |
| Upstreams.NoStartWhileOpen | src/upstream.rs:218-222 | in every run no step starts a lookup from a trip until ten seconds later, as long as no lookup succeeds |
| Upstreams.StartsBalance | src/upstream.rs:218-273 | up to the next trip the starts since a reset are the recorded failures plus the growth in flight |
| Upstreams.AtMost71Starts | src/upstream.rs:47-51 | when every lookup times out, the lookups in flight at a reset and those that start before the next trip are at most 71 in all |
| Upstreams.SeventyOneIsReached | src/upstream.rs:47-51 | some run starts 71 and trips at the next timeout |
| RateLimit.SharedBucket | src/rrl.rs:35-60 | two clients share a bucket if and only if they are of one family and agree on the configured leading bits, at most 64 for IPv6 |
| RateLimit.Rrl.Decide | src/rrl.rs:121-142 | the decision and the counter for any verdict of the token buckets |
| RateLimit.SuppressedExactly | src/rrl.rs:121-142 | a call over TCP, to a disabled limiter or within budget is allowed and leaves the counter alone; every other call is suppressed and counted |
| RateLimit.SlipPattern | src/rrl.rs:121-142 | the suppressed responses are those of the calls over UDP beyond budget, and the n-th of them is decided by n alone |
| RateLimit.SlipCount | src/rrl.rs:121-142 | after n suppressions exactly n divided by slip, rounded up, were truncated, and none for slip zero |
| RateLimit.SlipWindow | src/rrl.rs:121-142 | every slip consecutive suppressions hold exactly one truncated response |
| Ipv6Text.Parse6 | site/mapper.js:19-35 | the reader computes the address a text denotes, or nothing |
| Ipv6Text.ReadingExact | site/mapper.js:19-35 | a text is read as `v` if and only if it is eight groups, or fewer around one `::`, whose value is `v` |
| Ipv6Text.TrimExact | site/mapper.js:19-35 | trimming leaves exactly the part of a text between its white space |
| Ipv6Text.ParsedBound | site/mapper.js:19-35 | whatever is read fits in 128 bits |
| Ipv6Text.LongestRun | site/mapper.js:41-46 | the nested loops find the leftmost of the longest runs of two or more zero groups |
| Ipv6Text.Fmt6 | site/mapper.js:36-48 | the printed text elides that run (section 4.2 of RFC 5952), and reading it gives the address back |
| Ipv6Text.PrintedUniquely | site/mapper.js:36-48 | two addresses have the same printed text if and only if they are equal |
| Ipv6Text.NoLeadingZeros | site/mapper.js:39-39 | no printed group is empty or has a leading zero |
| Mapper.MasksAgree | site/mapper.js:73-73 | the browser's exclusive-or mask is the server's `mask_bits` |
| Mapper.PtrNamesAgree | site/mapper.js:66-67 | the browser's reversed digits are the labels of the server's reverse name joined by dots |
| Mapper.DigitsAgree | site/mapper.js:84-84 | the slice the browser cuts is the server's host digits |
| Mapper.NamesAgreeExactly | site/mapper.js:85-95 | the name shown is the server's if and only if the placeholder is in capitals and no dot ends the pattern |
| Mapper.ImplementationsAgree | site/mapper.js:57-100 | for a compiled zone and a network text with its prefix, page and server give an address the same row if and only if it is outside the network, or the placeholder is in capitals and no dot ends the pattern |
| Mapper.Update | site/mapper.js:57-100 | which of the five rows is shown for the three fields, and the address printed back |
| Mapper.NetworkFieldExact | site/mapper.js:59-61 | the network field denotes a network if and only if, between white space, it is an address text of hex digits and colons, a slash and one to three decimal digits with that value |
| Mapper.LengthExact | site/mapper.js:68-72 | the prefix lengths taken are exactly 0, 4, 8 and so on to 124 |
| Mapper.RowExact | site/mapper.js:73-95 | for such a length, the row: outside unless the leading hex digits are the network's, not grouped for a dashed placeholder short of whole groups, and else the name with the remaining digits |

## Left out

- Bytes are modelled as characters; every statement holds for all characters, so for all byte strings. UTF-8 validity, lengths of non-ASCII text in bytes and the error for lines that are not UTF-8 are not modelled.
- The DNS library is not part of this model: legal names are taken as labels of 1 to 63 bytes and 255 bytes in all, equality and `zone_of` as ASCII-case-insensitive comparison of labels, and `num_labels` as documented, leaving out a leading `*`. Every name is absolute, so the flag for that is dropped.
- The parsers of the standard library for IPv6 addresses, IP addresses and numbers are function-valued parameters; nothing is assumed about them.
- `compile_globals`, `compile_listen` and their errors: one-branch checks; their result is a parameter of `ConfigCompile.Compile` and `CompileFacts.ParseConfig`.
- The wording of diagnostics and the reason texts inside error kinds: kinds, lines and spans only.
- Sockets, signals, reloading, logging, EDNS, response encoding and the health check.
- `Zones::new`: the upstream clients of a configuration are an arbitrary map, each holding an arbitrary answer section.
- The token buckets and `sweep`: the verdict of a bucket is an arbitrary function of client key and kind.
- The resolver and its network: a lookup ends in an answer, a negative or a timeout, at any time and in any order; mutex poisoning is left out.
- The resolver's cache and the lock inside the breaker: each breaker call, and everything a lookup does before its one wait, is one step.
- The page's DOM updates, HTML escaping and highlighting; output is the plain text they carry.
- Ipv6Text.ReadingExact: `toLowerCase` is modelled as ASCII folding, which agrees on every text that the reader's first check lets through.
- RateLimit.SlipPattern: states the pattern up to 2^64 suppressions; where the counter wraps the pattern restarts, which need not fall on a multiple of slip.
