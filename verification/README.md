# Verified model of the network tools

This project models the algorithms and protocols of the tools repository that carry its promises, in Dafny, and proves what
they promise for every input, every run and every interleaving. Check it all with `dafny verify dfyconfig.toml`.

| file | models |
|---|---|
| `Basics.dfy`, `TextCuts.dfy` | an option type; cutting, splitting and joining text at a byte |
| `DnsRecords.dfy` | names as label sequences from the root down, records, replies; signatures and digests are open functions |
| `TraceChecks.dfy` | one link's keys, one RRset, one referral, the zone that owns an answer |
| `TraceRounds.dfy` | the world a walk runs in, its log, and one question put to at most three servers |
| `TraceEvidence.dfy` | a walk's chain, the log of exchanges, and what each link's status rests on |
| `TraceVerdict.dfy` | the answer, the verdict, and what each verdict is worth |
| `TraceTurns.dfy` | one turn of a walk from zone to zone, and turns in sequence |
| `TraceWalk.dfy` | the delegation walk: one object, updated from the root down to the verdict |
| `RisingRun.dfy`, `ParamDiff.dfy`, `DiffMoves.dfy`, `DiffLaws.dfy` | the URL parameter diff: pairing, the longest rising run, moves, and laws of the whole |
| `ResolveCache.dfy`, `CacheProtocol.dfy` | the short-link cache, and its readers and writers one atomic step at a time |
| `Shutdown.dfy` | the queue-and-writer protocol of the hit batcher and of the request log |
| `Passwords.dfy`, `PasswordDraw.dfy` | counting passwords by inclusion and exclusion; rejection sampling and the redraw loop |
| `CertChain.dfy` | the order of a pasted certificate chain |
| `ShellText.dfy`, `CurlCommand.dfy`, `CurlRoundTrip.dfy` | shell quoting and tokenising, building and reading a curl command |
| `QueryText.dfy`, `QueryRebuild.dfy`, `QueryClean.dfy` | percent-escapes and UTF-8 over bytes; printing and reading parameters; cleaning a link |
| `UrlDefense.dfy` | the urldefense v3 substitution |
| `AdmissionCap.dfy` | weighted per-client admission |
| `Cidr.dfy` | CIDR arithmetic |

## What the proofs settled

Most promises hold as made. These do not, and the model says exactly when the code meets them:

- A DNSKEY set with an in-date signature is still called bogus when an expired signature that verifies comes first
  (`ExpiredSignatureFirstIsBogus`); it is secure if and only if the first signature that verifies is in date
  (`VouchedKeysSecureIff`). Section 5.3 of RFC 4035 lets a validator use any of them.
- When only an alias comes back, the verified set is the queried name's own alias set, but the alias shown is the first one
  in the reply, whoever owns it. The alias shown lies in an RRset the zone's keys signed in date if and only if the queried
  name owns that first alias or the keys also signed the alias set of its owner (`ShownAliasSignedIff`); a reply that meets
  neither, and is still called verified, is `ForeignAliasShown`.
- A chain that exists is not always found: a certificate with two issuers in the paste can hide it
  (`CrossSignedIsMissed`). What is found, and when, is `SuggestedIff`.
- Parameters printed and read again come back the same if and only if each of them survives (`PrintedReadsBackIff`), which
  fails in three families. An empty pair disappears. A key printed with a bare `=` reads back cut short: it is printed so
  exactly when its raw form, if that is what is printed, holds one, or else when the key does and is text that prints as it
  is (`BareEqualsIff`); a parameter typed in under the key `a=b` is one (`BareEqualsCutsKey`). And text that is not UTF-8
  reads back if and only if its raw form is printed and is the text itself, or it prints as it is (`WrittenReadsBackIff`); a
  byte FF and `%20`, which reading leaves as they stand, come back as `%FF%2520` (`NotUtf8IsRewritten`). Of a query read,
  printed and read again, only the last family is left, and `ReadAgainIff` says exactly which queries keep their meaning.
- A query prints back byte for byte exactly when no pair is empty and every part is `Faithful`: a space or an escape that is
  not UTF-8 comes back rewritten (`ReadPrintsExactlyIff`, `UnfaithfulParts`).
- Cleaning removes more than the tracked pairs in one family of links: what is left reads as exactly the untracked pairs if
  and only if these are not a single empty one (`OnlyPairsGo`). `h?t&` with `t` tracked becomes `h`, without the empty pair
  after `&` (`LoneEmptyPairGoes`). Cleaning is still idempotent (`CleanIsIdempotent`).

## Model

| member | source | states |
|---|---|---|
| TraceChecks.CheckKeys | tools/dnstools/trace.go:414-447 | the first DS, key and signature that match and verify, in loop order, decide: in date is secure, expired is bogus; with none, bogus, or indeterminate when a digest matched and no signature came |
| TraceChecks.SecureKeysAreVouched | tools/dnstools/trace.go:414-447 | secure is only said of a key set that a key named by the parent's DS signed in date |
| TraceChecks.VouchedKeysSecureIff | tools/dnstools/trace.go:414-447 | for such a key set, secure is said if and only if the first verifying signature is in date |
| TraceChecks.ExpiredSignatureFirstIsBogus | tools/dnstools/trace.go:430-440 | a concrete vouched key set that is called bogus |
| TraceChecks.VerifyRRset | tools/dnstools/trace.go:667-687 | verified exactly when one of the zone's keys signed the RRset in date, failed when the zone signed it otherwise, foreign when only others did |
| TraceChecks.AnswerZone | tools/dnstools/trace.go:283-304 | of the names that are a signature's signer or an SOA's owner in the answer or authority section, strictly below this zone and on the queried name's path, the shallowest; none only if there is no such name |
| TraceChecks.NestedNames | tools/dnstools/trace.go:296-302 | when two such names nest, the nearer is taken, so the farther lies strictly below the zone the answer is judged under |
| TraceChecks.Referral | tools/dnstools/trace.go:549-570 | the child is the first NS owner if it lies on the path, with exactly that owner's hosts |
| DnsRecords.RRsetHolds | tools/dnstools/trace.go:772-781 | a set of records of one owner and type holds exactly the records of that owner and kind |
| TraceEvidence.JudgeDs | tools/dnstools/trace.go:315-352 | a reply's word on a child: none, a DS set the link's keys signed, one nobody signed, or one whose signatures all fail |
| TraceEvidence.JudgeKeys | tools/dnstools/trace.go:355-402 | a zone's status and keys follow from its DNSKEY reply and its DS set: indeterminate only without a usable reply or for keys the DS names with no signature at all; the key tags, the matched tag and the mark for keys without a DS follow too |
| TraceEvidence.JudgedLinkStands | tools/dnstools/trace.go:355-402 | a link judged by a parent's word that the log backs can be added to the chain with its own evidence, an unread link's being the stretch of the log in which the question went unanswered or the unsigned reply |
| TraceEvidence.ChainShape | tools/dnstools/trace.go:315-402 | statuses are secure links, then nothing, or gaps only, or one insecure or bogus link with only insecure ones below |
| TraceEvidence.ShapeExcludes | tools/dnstools/trace.go:315-402 | at most one link is bogus, and an unread link shares its chain with no insecure or bogus one |
| TraceEvidence.DepthBoundsChain | tools/dnstools/trace.go:230-304 | every link costs the name at least one more label |
| TraceEvidence.SoundDescends | tools/dnstools/trace.go:230-304 | zones go from the root strictly down towards the name, each hanging from the one before |
| TraceEvidence.ShortNamesFit | tools/dnstools/trace.go:102-104 | a name of at most ten labels has fewer than twelve links |
| TraceVerdict.Verdict | tools/dnstools/trace.go:690-731 | bogus, insecure and secure are each said exactly under their own condition, in that order of precedence |
| TraceVerdict.VerifiedAnswerIsVouched | tools/dnstools/trace.go:621-664 | a verified answer: every record shown lies in an RRset the answering zone's keys signed in date |
| TraceVerdict.FailedAnswerIsRefuted | tools/dnstools/trace.go:621-664 | a failed answer: the zone signed an RRset shown and no such signature verifies in date |
| TraceVerdict.OfTypeAppend | tools/dnstools/trace.go:625-634 | records of a type are shown in the order and number they have |
| TraceVerdict.ShownAliasIs | tools/dnstools/trace.go:635-638 | the alias shown is the first in the answer, and none only if there is none |
| TraceVerdict.SecureIsTrusted | tools/dnstools/trace.go:690-718 | behind secure: every link secure with its evidence from a root anchor down, and the records shown signed by the last link's keys |
| TraceVerdict.BogusIsRefuted | tools/dnstools/trace.go:690-718 | behind bogus: a link refuted under a secure parent, or the zone's own failing signature |
| TraceVerdict.InsecureIsUnvouched | tools/dnstools/trace.go:690-718 | behind insecure: below secure links only, a zone for which a whole authoritative reply held no DS record |
| TraceVerdict.IndeterminateIsUnsettled | tools/dnstools/trace.go:690-731 | behind indeterminate: a walk that stopped before an answer, a first unread link below secure ones with the unanswered question or the unsigned reply, or an answer under secure links that neither verified nor failed |
| TraceVerdict.ShownAliasSignedIff | tools/dnstools/trace.go:635-644 | of an answer verified by its alias alone, the alias shown lies in an RRset the zone's keys signed in date if and only if the queried name owns the reply's first alias or the keys signed the alias set of that record's owner |
| TraceVerdict.ForeignAliasShown | tools/dnstools/trace.go:635-644 | a concrete reply that is called verified while the alias shown lies in no RRset anything signed |
| TraceRounds.LiveFirstPermutes | tools/dnstools/trace.go:537-547 | moving quiet servers back drops none and repeats none |
| TraceRounds.LiveFirstOrders | tools/dnstools/trace.go:537-547 | no server that went silent comes before one that did not, and neither kind changes its order |
| TraceTurns.GlueIsFirst | tools/dnstools/trace.go:577-594 | the address taken is the first routable one of its family for the nameserver, so an unroutable one hides none |
| TraceTurns.HasGlueIff | tools/dnstools/trace.go:577-600 | a nameserver is taken from glue if and only if the referral carries a routable address of either family for it |
| TraceWalk.Walk.constructor | tools/dnstools/trace.go:218-221 | a walk starts with nothing asked and nothing shown |
| TraceWalk.Walk.Spend | tools/dnstools/trace.go:190-197 | a query is charged exactly when the clock's reading is before the deadline and fewer than 48 were charged; otherwise the walk is marked truncated and nothing is charged |
| TraceWalk.Walk.LiveFirst | tools/dnstools/trace.go:537-547 | live servers in order, then quiet ones in order |
| TraceWalk.Walk.Query | tools/dnstools/trace.go:495-534 | at most three servers, each with an address asked once in live-first order until one answers usably; silent ones join the dead; one charge for each question; the server returned is the one whose reply it is |
| TraceWalk.Walk.Try | tools/dnstools/trace.go:499-532 | one server's turn: skipped without an address, otherwise paid for, asked and logged |
| TraceWalk.Walk.FetchDs | tools/dnstools/trace.go:315-352 | without keys, the gap or the lack of trust above is passed on and nothing is asked; with keys, the servers are asked and the reply judged, no reply being a gap |
| TraceWalk.Walk.ValidateZone | tools/dnstools/trace.go:355-402 | a verdict already given stands; otherwise the DNSKEY set is asked for and judged |
| TraceWalk.Walk.AddLink | tools/dnstools/trace.go:240-241 | the zone's link joins the chain, judged as asked, and the chain stays backed by the log |
| TraceWalk.Walk.AskZone | tools/dnstools/trace.go:454-486 | the walk's own question put to the zone's servers, and the hop that records the server that answered, its rcode and authority, the nameservers named and the addresses sent along |
| TraceWalk.Walk.ResolveServers | tools/dnstools/trace.go:572-617 | the nameservers with usable glue in rotated order, then what side lookups of the others found; glue missing inside the child and the lookups that found something are noted |
| TraceWalk.Walk.SideLookups | tools/dnstools/trace.go:604-616 | the first two nameservers without glue at most are looked up in order, none once there are three servers and none left out but for the budget or the clock, at two queries each |
| TraceWalk.Walk.Finish | tools/dnstools/trace.go:621-664 | the records of the type asked for and the first alias are shown, and the answer judged from the last link's keys |
| TraceWalk.Walk.Show | tools/dnstools/trace.go:625-638 | records of the type asked for in order, the first alias, and the owners each once |
| TraceWalk.Walk.Judge | tools/dnstools/trace.go:654-663 | the first RRset that does not verify decides; signed means none lacks a signature |
| TraceWalk.Walk.Conclude | tools/dnstools/trace.go:252-261 | an authoritative reply ends the walk under the shallowest zone it names below the one asked, with a link of its own judged first, and under the one asked only if it names none |
| TraceWalk.Walk.Descend | tools/dnstools/trace.go:263-278 | a referral on the path is followed with its DS set asked first; any other, or one with no address, ends the walk |
| TraceWalk.Walk.Visit | tools/dnstools/trace.go:240-278 | one turn in full: the link judged, the servers asked, and the reply leading to an end or to a child strictly below |
| TraceWalk.Walk.Step | tools/dnstools/trace.go:235-279 | a walk still going takes one more turn from where the last one left off, or is over at the clock's limit |
| TraceWalk.Walk.Run | tools/dnstools/trace.go:230-281 | the whole walk is a sequence of turns from the root hints and anchors on, each starting with what the one before left, and it ends with an answer, at a limit, or at a hop it cannot go past |
| TraceTurns.StagedMore | tools/dnstools/trace.go:230-281 | a turn that starts where the last one ended extends the sequence |
| TraceTurns.DeepEnough | tools/dnstools/trace.go:235-281 | a walk still going after twelve turns is for a name of at least twelve labels |
| TraceWalk.WalkGuarantees | tools/dnstools/trace.go:690-731 | the verdict is the one its answer and chain call for, and each of the four has its own backing in the log; an answer is judged under the zone asked only if its reply names none below it on the path, otherwise under the shallowest it names; every question went to a routable address; a truncated walk's verdict is bogus or indeterminate; the chain has its shape and path; the budget holds; a walk is cut only by the budget, a clock reading past the deadline or a name of twelve labels, and one of at most ten never by its depth |
| TraceWalk.TraceName | tools/dnstools/trace.go:200-227 | all of that, and the sequence of turns behind it, for every walk, whatever the servers reply and whatever times out |
| RisingRun.Table | tools/linktools/diff.go:146-166 | the dynamic program's best entry ends a chain that is optimal among all rising chains, and its back-links spell that chain |
| RisingRun.Row | tools/linktools/diff.go:150-162 | the inner loop's chain beats every rising chain that ends at the same place |
| RisingRun.BestIsOptimal | tools/linktools/diff.go:146-166 | the best of the optimal chains ending at each place is optimal over all |
| RisingRun.Kept | tools/linktools/diff.go:167-170 | walking the links back collects exactly an optimal chain |
| RisingRun.AllRising | tools/linktools/diff.go:135-176 | when B rises all along, everything is kept |
| RisingRun.ExactsCount | tools/linktools/diff.go:150-153 | the tie-break counts the places in the run where A and B have the same position |
| RisingRun.MirrorOptimal | tools/linktools/diff.go:135-176 | the longest run is as long seen from either side |
| ParamDiff.GroupByKey | tools/linktools/diff.go:240-247 | each key's parameters in their order of occurrence |
| ParamDiff.OrderedKeys | tools/linktools/diff.go:249-261 | the keys of A then B, each once, in order of first appearance |
| ParamDiff.PairUp | tools/linktools/diff.go:92-113 | the loops give the rows that PairedAre, RowsPairOccurrences and RowsInOrder describe |
| ParamDiff.PairedAre | tools/linktools/diff.go:93-112 | a row is there exactly for each key and occurrence number that A or B has, with that parameter from each side that has it: added if only B has it, removed if only A has it, modified if the values differ, same if they agree |
| ParamDiff.RowsPairOccurrences | tools/linktools/diff.go:84-112 | the rows of a key pair its occurrences first with first, as many as the longer side has |
| ParamDiff.RowsInOrder | tools/linktools/diff.go:249-261 | rows stand key by key, keys in the order in which they are first seen in A and then B |
| ParamDiff.RowsConserve | tools/linktools/diff.go:93-112 | every parameter of A and every one of B lands in exactly one row |
| DiffMoves.MarkMoves | tools/linktools/diff.go:137-176 | the unchanged rows left as same are an optimal rising run, longest first and then most exact positions; the others become moved and nothing else changes |
| DiffMoves.OrderIs | tools/linktools/diff.go:138-144 | the unchanged rows in A order, each once |
| DiffMoves.DiffParams | tools/linktools/diff.go:93-115 | pairing, then marking |
| DiffMoves.HasRealChange | tools/linktools/diff.go:272-279 | true exactly when some row is not same |
| DiffMoves.OnlyMoves | tools/linktools/diff.go:281-294 | true exactly when some row moved and no row is anything but same or moved |
| DiffLaws.NoDifferenceIff | tools/linktools/diff.go:93-176 | nothing but same is reported if and only if the ordered lists of key and value are equal |
| DiffLaws.MarkedRowsAre | tools/linktools/diff.go:93-176 | in a finished comparison every row is one of the paired ones, moved where that was same; a modified row's values differ and a same or moved row's agree |
| DiffLaws.MarkedConserves | tools/linktools/diff.go:93-176 | after marking, every parameter of both lists is still in exactly one row |
| DiffLaws.MovedNumber | tools/linktools/diff.go:135-176 | the rows marked moved are the unchanged ones less a longest run, so as few as can be |
| DiffLaws.SwapKeepsMoves | tools/linktools/diff.go:135-176 | comparing B with A marks as many moves as comparing A with B |
| ResolveCache.PutBounded | tools/linktools/resolvecache.go:61-84 | a put changes its own code only, which it answers for the next 60 seconds, is refused after an invalidation, and never outgrows the bound |
| ResolveCache.PutKeeps | tools/linktools/resolvecache.go:72-82 | a put drops no other answer while there is room, only expired ones if that makes room, and otherwise all |
| ResolveCache.InvalidateForgets | tools/linktools/resolvecache.go:87-92 | an invalidated code is gone and no other entry changes |
| ResolveCache.Store.Generation | tools/linktools/resolvecache.go:41-45 | the invalidation counter |
| ResolveCache.Store.Lookup | tools/linktools/resolvecache.go:47-56 | a live entry's answer, absence included, or nothing |
| ResolveCache.Store.Put | tools/linktools/resolvecache.go:61-84 | stored with its lifetime unless something was invalidated since, room made by dropping the expired and then everything |
| ResolveCache.Store.DropExpired | tools/linktools/resolvecache.go:69-80 | exactly the expired entries go |
| ResolveCache.Store.Drop | tools/linktools/resolvecache.go:87-92 | the counter moves on and the code is forgotten |
| CacheProtocol.StepKeeps | tools/linktools/store.go:90-177 | every step of every reader and writer keeps the protocol's invariant |
| CacheProtocol.CacheCoherent | tools/linktools/resolvecache.go:28-92 | at every moment of every run a cached answer, or one about to be published, differs from the database only while a writer of that code is between its commit and its invalidate |
| CacheProtocol.PublishedIsServed | tools/linktools/resolvecache.go:47-84 | an answer published while nothing was invalidated is what a lookup within a minute finds |
| CacheProtocol.ReadsSeeReturnedWrites | tools/linktools/store.go:112-177 | a ByCode begun after Insert or Revoke returned answers with the database's content at some point no earlier than that write, so, if nobody wrote the code in between, with the link inserted or the revoked one |
| CacheProtocol.ReturnedIsRecorded | tools/linktools/store.go:90-109 | a write that returned is the commit at its own version and no other writer's: an Insert left exactly its link under a non-empty code that was free, a Revoke the link that was there, at the same target, revoked at its moment |
| CacheProtocol.CommitsIff | tools/linktools/store.go:90-177 | an Insert goes through if and only if its code is free and not empty, a Revoke if and only if there is a link |
| CacheProtocol.ContentIs | tools/linktools/store.go:112-140 | the database holds the link of the last write of a code, and what it held at the start without one |
| Shutdown.StepKeeps | tools/linktools/resolvecache.go:94-185 | every step of every recorder, closer and the writer keeps the lock, the flag and the account of entries |
| Shutdown.NothingLost | tools/linktools/resolvecache.go:113-185 | no send on a closed channel, no second close, and accepted entries are written in order or queued, flushed or pending, at every moment of every run |
| Shutdown.ExitIsFinal | platform/requestlog.go:80-112 | once the writer has exited, every accepted entry was flushed exactly once and written in order, and no later one is accepted |
| Shutdown.QueueBounded | tools/linktools/resolvecache.go:113-126 | the queue never holds more than the channel's capacity |
| Shutdown.DroppedOnlyWhen | platform/requestlog.go:64-78 | an entry is turned away exactly when closing has begun or the queue is full |
| Shutdown.ClosedIsShut | platform/requestlog.go:80-112 | once the queue is flagged closed and no closer holds the lock it is shut, and a writer that finds it empty exits |
| Shutdown.SomeoneMoves | platform/requestlog.go:64-112 | nobody waits for ever: while a caller is unfinished some caller can move, and a queued entry can be written |
| Passwords.SignedCount | tools/ciphertools/random.go:237-250 | the two loops compute the signed sum over all masks, in exact integers |
| Passwords.InclusionExclusion | tools/ciphertools/random.go:237-250 | that sum is the number of words of the length over the alphabet that hold a character of every set |
| Passwords.MaskSumIsCount | tools/ciphertools/random.go:240-248 | the sum over masks is the recursion that takes away, set by set, the words avoiding the set |
| Passwords.PasswordExistsIff | tools/ciphertools/random.go:208-219 | the count is positive if and only if no set is empty and the length reaches the number of sets |
| Passwords.TrimSets | tools/ciphertools/random.go:195-205 | each set loses exactly the ambiguous characters in place and the alphabet is the sets joined |
| Passwords.CharSetsAreDisjoint | tools/ciphertools/random.go:151-179 | any choice of the four sets shares no character and repeats none |
| Passwords.EntropyCountsPasswords | tools/ciphertools/random.go:195-207 | after trimming, the sum taken from the alphabet's length counts exactly the passwords there are to draw |
| PasswordDraw.RandomPick | tools/ciphertools/random.go:88-100 | the result is the first length accepted bytes mapped by remainder, however the stream is cut into requests, and no byte is read past the one that completes it |
| PasswordDraw.EveryCharacterAlike | tools/ciphertools/random.go:88-97 | each character of an alphabet of at most 256 has exactly 256/n accepted bytes |
| PasswordDraw.DrawsCount | tools/ciphertools/random.go:88-100 | with no byte rejected each word comes from (256/n) to the length byte strings |
| PasswordDraw.EveryWordAlike | tools/ciphertools/random.go:88-100 | of the streams of any one length, as many are read to the end to draw one word as another of its length, wherever the rejected bytes lie |
| PasswordDraw.DrawPassword | tools/ciphertools/random.go:208-219 | where the loop over whole draws leaves the stream is where one byte at a time does: a password with the last byte read exactly when that completes a draw lacking no set, an error after 10000 draws that lack one |
| PasswordDraw.DrewIsAllowed | tools/ciphertools/random.go:208-219 | a password has the length, comes from the alphabet and lacks no set |
| PasswordDraw.EveryPasswordAlike | tools/ciphertools/random.go:208-219 | uniform over the passwords allowed: of the streams of any one length, as many are read to the end to give one back as another, whatever bytes and whole draws were rejected |
| CertChain.CheckLink | tools/ciphertools/cert.go:539-566 | issued means the names chain and the signature verifies or cannot be checked; valid, unsupported, insecure, invalid, not a CA and not checked are each said exactly under their own condition |
| CertChain.FindCopies | tools/ciphertools/cert.go:580-590 | exactly the later copies are marked, each with the first it repeats, and the distinct ones counted |
| CertChain.FindIssuers | tools/ciphertools/cert.go:591-599 | each certificate's first issuer among the other first occurrences |
| CertChain.FollowIssuers | tools/ciphertools/cert.go:606-610 | the guarded walk up from the leaf |
| CertChain.CheckChain | tools/ciphertools/cert.go:569-637 | the whole result: links and whether one fails, copies, order, suggestion, verdict, where the chain ends and whether at a root |
| CertChain.VerdictIff | tools/ciphertools/cert.go:600-629 | which verdict: in order if accepted, out of order if an order is suggested, and otherwise by whether there are several leaves, none or one |
| CertChain.AcceptedIff | tools/ciphertools/cert.go:573-590 | an input is accepted if and only if each certificate was issued by the next and none repeats another |
| CertChain.NotesAre | tools/ciphertools/cert.go:580-590 | a copy is noted exactly for each later certificate equal to an earlier one, with the first of those |
| CertChain.FailingIff | tools/ciphertools/cert.go:573-578 | a failing link is noted if and only if some certificate was issued by the next one and the full check refuses that link |
| CertChain.RootIff | tools/ciphertools/cert.go:630-636 | a chain accepted or suggested is said to end at a root if and only if its last certificate issued itself |
| CertChain.SuggestionIsSound | tools/ciphertools/cert.go:612-623 | a suggestion lists every distinct certificate once, each issued by the next, and is made only for an input not in order |
| CertChain.ListedOnce | tools/ciphertools/cert.go:612-623 | such a list holds every certificate pasted, and no two the same |
| CertChain.SuggestedIff | tools/ciphertools/cert.go:591-623 | a suggestion is made if and only if the input is not accepted and the first issuers form one line whose first did not issue its last; it is that line |
| CertChain.ChainIsFound | tools/ciphertools/cert.go:591-623 | with at most one issuer each, any chain the certificates form is accepted or suggested |
| CertChain.CrossSignedIsMissed | tools/ciphertools/cert.go:591-629 | a concrete chain, one key under two of its certificates, that is neither accepted nor suggested |
| ShellText.ShellSplit | tools/linktools/curlgen.go:276-394 | the tokeniser's loops compute the tokens and flags read off from the front |
| ShellText.DoubleQuoted | tools/linktools/curlgen.go:341-368 | the text, expansion and end of a double-quoted run |
| ShellText.AnsiQuoted | tools/linktools/curlgen.go:310-329 | the raw text and end of an ANSI-C quoted run |
| ShellText.SingleQuoted | tools/linktools/curlgen.go:330-340 | the text up to the next single quote |
| ShellText.QuotedRun | tools/linktools/curlgen.go:272-274 | any text quoted, whatever follows it, is read back into the token in progress |
| ShellText.SplitUndoesQuoting | tools/linktools/curlgen.go:270-394 | any list of words, safely bare or quoted and joined by spaces, is given back exactly with no flag set |
| ShellText.SafeIff | tools/linktools/curlgen.go:300-391 | a character is safe in a bare word exactly if it is none of the thirteen the tokeniser acts on |
| ShellText.OperatorEnds | tools/linktools/curlgen.go:369-376 | an unquoted operator ends the command with the token in progress, and a doubled one is named whole |
| ShellText.DoubleEscapes | tools/linktools/curlgen.go:344-354 | between double quotes a backslash escapes four characters, joins lines, and otherwise stands for itself |
| ShellText.ExpansionNoticed | tools/linktools/curlgen.go:291-298 | a dollar before a name, a brace or a parenthesis is noticed |
| ShellText.OpenQuoteNoticed | tools/linktools/curlgen.go:330-340 | a quote that never closes is noticed |
| CurlCommand.ReadAll | tools/linktools/curlgen.go:159-239 | the argument loop reads each flag, value and operand as specified |
| CurlCommand.ReadCommand | tools/linktools/curlgen.go:124-268 | the errors, the remarks, the URL and headers, and the method by curl's precedence, as the functional account gives them |
| CurlCommand.MethodSettled | tools/linktools/curlgen.go:248-266 | -X stands whatever else is said, without it -I means HEAD, data means POST, and -G with data moves it into the URL of a GET |
| CurlCommand.FirstUrlStays | tools/linktools/curlgen.go:162-239 | the first URL among the arguments is the one read |
| CurlCommand.PasswordNotShown | tools/linktools/curlgen.go:234-237 | what is read does not depend on the password given with -u |
| CurlCommand.ClusterRead | tools/linktools/curlgen.go:182-201 | a cluster of short flags is read as its switches and the one flag that takes the rest as its value |
| CurlCommand.NoisePassed | tools/linktools/curlgen.go:138-143 | prompt words before curl are passed over |
| CurlCommand.BuiltIff | tools/linktools/curlgen.go:27-66 | a command is built if and only if the URL is a network one with a host, the method is a token and the persona is known |
| CurlCommand.FlagsBuilt | tools/linktools/curlgen.go:44-72 | what is built carries each flag exactly when it was asked for, and no other |
| CurlRoundTrip.ArgsRead | tools/linktools/curlgen.go:159-239 | the built arguments read back as the URL, the method and the user agent, and nothing else |
| CurlRoundTrip.CurlRoundTrip | tools/linktools/curlgen.go:27-75 | for every URL and options accepted, the command reads back as the same URL, upper-case method and User-Agent with no body and no remark, or is refused as too long |
| TextCuts.JoinSplit | tools/linktools/clean.go:201-229 | joining what was split gives the text back |
| TextCuts.SplitJoin | tools/linktools/clean.go:201-229 | splitting what was joined gives the parts back |
| QueryText.UnescapeEncoded | tools/linktools/rebuild.go:164-167 | encoding any bytes is undone by decoding |
| QueryText.EncodedIsPlain | tools/linktools/rebuild.go:164-167 | what is encoded holds no separator |
| QueryText.ValidUpTo | tools/linktools/url.go:343-359 | text valid as UTF-8 is valid up to any ASCII byte |
| QueryText.ValidIff | tools/linktools/url.go:343-359 | text is valid UTF-8 if and only if it is the encoding of a sequence of code points that are no surrogates |
| QueryRebuild.RebuildPairs | tools/linktools/rebuild.go:113-128 | the builder's loop joins the written pieces |
| QueryRebuild.WrittenReadsBackIff | tools/linktools/rebuild.go:130-148 | for any bytes and any raw form, what is written decodes to the text if and only if the text is UTF-8, or its raw form is kept and is the text itself, or it prints as it is |
| QueryRebuild.PrintedIsSafe | tools/linktools/rebuild.go:130-162 | text printed without a raw form holds no separator, blank or control character |
| QueryRebuild.PrintsAsIs | tools/linktools/rebuild.go:130-162 | safe text without escapes and malformed escapes print as they are, and a raw form that still decodes to the text is kept |
| QueryRebuild.PrintedReadsBackIff | tools/linktools/rebuild.go:113-148 | printing then reading keeps keys, values and order if and only if no parameter is an empty pair or has its key written with a bare '=', and each key and value reads back |
| QueryRebuild.BareEqualsIff | tools/linktools/rebuild.go:130-162 | for every key and raw form, when a key is written with a bare '=': the raw form holds one and is kept, or it is not kept and the key holds one and prints as it is |
| QueryRebuild.BareEqualsCutsKey | tools/linktools/rebuild.go:130-148 | a concrete parameter whose key comes back cut short |
| QueryRebuild.ReadAgainIff | tools/linktools/rebuild.go:113-148 | a query read, printed and read again gives the same parameters if and only if each part of its pairs decodes to UTF-8, is UTF-8 as it stands, or prints as it is |
| QueryRebuild.NotUtf8IsRewritten | tools/linktools/url.go:343-359 | a concrete query whose key is not UTF-8 and comes back as another one |
| QueryRebuild.FaithfulIff | tools/linktools/rebuild.go:130-148 | a part read from a query prints as it was if and only if it is Faithful |
| QueryRebuild.ReadPrintsExactlyIff | tools/linktools/rebuild.go:113-167 | reading then printing a query gives its bytes if and only if no pair is empty and every part is Faithful |
| QueryRebuild.UnfaithfulParts | tools/linktools/rebuild.go:130-167 | two concrete parts that come back rewritten, and one that does not |
| QueryClean.SplitPartsIs | tools/linktools/clean.go:231-236 | the parts put together again are the link, and hold no separator of their own |
| QueryClean.PartsOfAssembled | tools/linktools/clean.go:231-236 | cutting parts put together gives them back |
| QueryClean.PairsAreWritten | tools/linktools/clean.go:201-229 | the pairs joined again are the query |
| QueryClean.PairsOfJoined | tools/linktools/clean.go:201-229 | splitting joined pairs gives them back, but for a single empty one |
| QueryClean.PairOfCut | tools/linktools/clean.go:201-229 | a pair's key is decoded from what stands before the first '=', and its value from what follows |
| QueryClean.LooksSigned | tools/linktools/clean.go:238-260 | the scheme the first vendor prefix, or else the set of keys, names |
| QueryClean.SchemeIffSigned | tools/linktools/clean.go:238-260 | a scheme is named exactly when the link is signed |
| QueryClean.SignedIsMonotone | tools/linktools/clean.go:238-260 | taking pairs away never makes a link look signed |
| QueryClean.KeepAndRemove | tools/linktools/clean.go:112-135 | the kept and the removed pairs |
| QueryClean.KeptInterleaves | tools/linktools/clean.go:112-135 | kept and removed pairs interleave to the original list |
| QueryClean.SortIsStable | tools/linktools/clean.go:137-139 | sorting orders pairs by key, keeps each of them, and leaves equal keys in the order they had |
| QueryClean.LexLessIff | tools/linktools/clean.go:137-139 | the order of keys is that of their first difference, a prefix coming first |
| QueryClean.Clean | tools/linktools/clean.go:98-166 | the method gives the cleaned link that SignedIsUntouched and OnlyPairsGo describe |
| QueryClean.SignedIsUntouched | tools/linktools/clean.go:112-121 | a link is signed exactly when a scheme is named, and then comes back as it was with nothing removed |
| QueryClean.NothingRemovedIsSame | tools/linktools/clean.go:146-157 | with nothing removed or sorted the link comes back byte for byte |
| QueryClean.OnlyPairsGo | tools/linktools/clean.go:98-157 | prefix and fragment stay with their marks and the query is the kept pairs joined; kept and removed pairs interleave to the link's, exactly the removed ones being tracked, and sorting keeps equal keys in order; what is left reads as exactly the kept pairs if and only if these are not a single empty one |
| QueryClean.LoneEmptyPairGoes | tools/linktools/clean.go:146-157 | a concrete link whose empty pair goes with its tracked one |
| QueryClean.CleanIsIdempotent | tools/linktools/clean.go:98-157 | cleaning what was cleaned removes nothing and changes nothing, sorted or not |
| UrlDefense.DecodeLoop | tools/linktools/clean.go:513-542 | the loop computes the decoding, "" where it gives up, and never reads past the replacement bytes |
| UrlDefense.IndexOfLetter | tools/linktools/clean.go:483-484 | each letter of the alphabet stands for its own place |
| UrlDefense.DecodeUndoes | tools/linktools/clean.go:486-542 | decoding inverts every encoder: any cut of a text into stretches, single bytes and runs |
| UrlDefense.DecodedWasMunged | tools/linktools/clean.go:486-542 | and nothing else decodes |
| UrlDefense.EveryChoiceEncodes | tools/linktools/clean.go:486-488 | any choice of bytes that takes in every '*' can be encoded, so which ones are replaced never matters |
| AdmissionCap.Cap.constructor | platform/ratelimit.go:92-94 | an idle cap |
| AdmissionCap.Cap.TryAcquire | platform/ratelimit.go:97-112 | granted exactly when neither the share nor the total is passed, and only then recorded |
| AdmissionCap.Cap.Release | platform/ratelimit.go:114-126 | the weight given back, and a client holding nothing forgotten |
| AdmissionCap.HistorySettles | platform/ratelimit.go:83-126 | after every balanced history each client's amount is the sum of its outstanding grants, the total is the semaphore's and at most n, and a client above its share holds exactly one grant |
| AdmissionCap.RefusedIff | platform/ratelimit.go:96-112 | when a request is refused, in terms of the grants outstanding; with none, any weight up to n is granted |
| AdmissionCap.ShareIs | platform/ratelimit.go:92-94 | a client's share is a quarter of the capacity rounded down, or 1 if that is less |
| AdmissionCap.FourthFits | platform/ratelimit.go:83-112 | three other clients within their shares never keep a fourth from its own |
| AdmissionCap.HeavyIsGranted | tools/ciphertools/handler.go:95-108 | no heavy operation is refused forever |
| Cidr.BoundsAreThePrefix | tools/iptools/cidr.go:80-98 | the addresses from a prefix's first to its last are exactly those that share it |
| Cidr.MasksAre | tools/iptools/cidr.go:77-106 | or-ing the host mask gives the last address and and-ing the netmask the network |
| Cidr.FillHostBits | tools/iptools/cidr.go:87-97 | the byte loop fills the host bits in place |
| Cidr.LoopGivesLast | tools/iptools/cidr.go:87-97 | the bytes it leaves are the last address of the prefix, for every length |
| Cidr.RangeIsMembership | tools/iptools/blocklist.go:203-213 | the range query finds an address exactly in the prefixes it is in |
| Cidr.SubnetIsRight | tools/iptools/cidr.go:41-75 | network and last are the least and greatest address that share the prefix; the hosts from first to last are exactly the others in an IPv4 prefix shorter than 31 bits, which alone has a broadcast address, and all of them otherwise; usable is how many hosts there are and the total how many addresses |

## Left out

- HTTP handlers, templates, MongoDB calls, sockets and feed downloads: I/O; the database is a map with atomic steps and a
  DNS server any reply function.
- Cryptography and parsing of certificates: signatures, digests, key tags and name bytes are open functions.
- The walk's root hints and anchors, the hash that rotates servers and the sort of nameserver names are parameters; the
  clock that dates signatures stands still during one walk; names are taken lower-cased already; notes, details and the
  list of skipped servers are wording; a test hook that replaces the resolver is not modelled.
- AskZone: the hop's sorted lists are multisets, and the round-trip time and skipped servers' notes are left out.
- AnswerZone: the source lower-cases and completes the names it reads, which is done before the model starts.
- The comparison of scheme, host, port, path and other fields in DiffInspections: independent branches. Escape
  normalisation is not idempotent for malformed input and is not claimed to be.
- MarkMoves: the tables are sequences rather than slices updated in place, and the library's sort is an insertion sort.
- ReadsSeeReturnedWrites: hit counters and other processes sharing the database are outside it; time is arbitrary, and the
  generation counter does not wrap at 64 bits.
- CacheProtocol leaves the batched hit counts in the cached link out; they are not compared.
- The batcher's flush to the database, its retries and its timer: a tick may come at any moment.
- SignedCount: the source takes the sum in floating point as a share of all words, and its logarithm; the model counts in
  integers.
- RandomPick: the random source is a finite stretch of bytes, and running out is a result; the source's never ends.
- CheckLink: wording is left out; the full check of a link and which hashes are weak are open functions.
- ShellSplit: ansiCDecode is an open function, so what an ANSI-C escape stands for is not modelled.
- ToCurl: readURL, url.Parse and the persona table decide their inputs; a URL given a scheme and a host is required to start
  with a letter and to hold "://". Case mapping and trimming are ASCII.
- CurlRoundTrip: the User-Agent comes back trimmed, as the reader trims every header value.
- PrintedReadsBackIff: raw forms are required to hold no '&', since they are only ever made by cutting a query at each '&'.
- The affiliate note, wrapper names and unwrapping hops of Clean: tables of independent rules; tracking is a predicate of
  key and host, and the host a function of the prefix.
- DecodeLoop: the pattern that finds the munged text, the path unescape, the base64 step and the repair of a collapsed
  scheme come before it.
- TryAcquire: amounts do not wrap at 64 bits, and a nil cap, which grants everything, is not modelled.
- RangeIsMembership: parsing of addresses and prefixes is netip's; an address is its number.
- Bot scoring, security header notes, string identification, catalogs and error wording: each settled by reading it.
