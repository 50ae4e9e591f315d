# Verified kernels of weebo-si hardening

A Dafny model of the parts of this repository whose correctness does not follow from reading one
function, with the properties proved for all inputs, all runs or all interleavings. `dafny verify
dfyconfig.toml` checks everything.

| modules | what they model |
|---|---|
| `PasswdEntry`, `PasswdDatabase`, `PasswdRaces` | `passwd-append`: validated lines, the byte parser, the append under the lock, and any number of processes racing on one file |
| `RateLimiter`, `RateLimiterRuns` | the bounded token-bucket limiter of the login surface, measured against buckets nobody ever forgets |
| `HostTemplate`, `HostSplits`, `HostUsers`, `HostOwnership` | reading a user out of a host: the first-split matcher, the all-splits walk, what a template declares, and when the walk's users are the declared ones |
| `TemplateLanguage`, `ValueTree`, `ArgoApplication` | `{VARIABLE}` templates, value trees and their deep merge, and the validator that makes rendering safe |
| `UrlFence`, `ApplicationPlan` | the `..` fence under repeated percent-decoding, and the plan that must pass it |
| `Catalog`, `DwocPin` | the first-definition-wins merge, the team order, resolution and its validation |
| `HostCookie`, `GrantUrl` | session, grant, host cookie and slides; the grant in a return URL |
| `Cidr` | network membership by mask |
| `Bytes`, `Saturating`, `Splitting`, `Strings` | shared types, saturating arithmetic, `split`/`join`, and the string searches the code uses |

Source code that loops or updates state is modelled by methods with invariants (the limiter and the
database file are classes), each proved equal to a specification function; the properties are then
lemmas about those functions. Text that the source handles as bytes is a sequence of bytes, everything
else is a `string`. Machine integers are bounded, and saturation is written out.

## Main results

- **Racing appends.** In every interleaving of open, lock, read, append, failure and death, the file
  keeps its bytes, gains one record per writer, and no two writers share an id or a name with each other
  or with what was there. What a process reports, an append, an owner or a taken name, stays true; and a
  process left alone finishes.
- **Eviction forgets nothing.** On a clock that does not go back, the bounded limiter answers every call
  it has room for as the unbounded limiter does. On any clock at all, no key exceeds its burst and the
  refill of the clock's climb over any window, and every key gets what it is owed: its next call is allowed
  exactly when what it left and the refill since make one token. A run of refusals long enough to cover
  the queue proves that nothing in it had refilled.
- **All splits, exactly when.** The walk behind host ownership visits every split a template declares if
  and only if the template is regular: no two placeholders touch, and every literal behind a placeholder
  either has no border or holds a dot.
- **All users, exactly when.** Skipping a split need not lose a user: another split may have the same one.
  The users found are the declared ones, on every stem, if and only if every irregular placeholder is
  mended: neither it nor the placeholder before it holds the answer, and the literal between the two
  stands again inside the literal behind, before that one can meet its own copy. Regular templates are
  exactly those for which the users are right wherever among the placeholders `{user}` stands. (Open are
  only templates of more than three placeholders in which a literal slides into the next.)
- **No server climbs.** If the URL check passes, no server can see a `..` segment, whichever escapes it
  decodes, in whatever order and however often; and the check refuses nothing else but URLs that still
  change on the fourth pass.
- **Validation is exact.** The validator is silent precisely when the fields are filled as they must be
  and every string renders from the variables a person resolves. Rendering commutes with the deep merge;
  a template has one reading, which prints back to it.
- **The first to say what a key means wins**: the cluster, then the teams by priority and name; exactly the
  teams that said otherwise are reported.
- **Cookies end with their session** in every run of sign-ins, grants, redemptions and slides.

## Where the code and its documentation differ

The model follows the code.

- `template_users` is documented to try "all splits"; it looks for non-overlapping occurrences only, and
  gives a placeholder with nothing behind it everything that is left. `HostSplits.AllSplitsIffRegular`
  says for which templates no split is skipped, `HostUsers.UsersExactIffMended` for which no user is lost,
  and `HostSplits.DoubleDashIsMisread` shows a host that loses one.
- `number` is documented to read a plain decimal; it also reads a leading `+` and leading zeros
  (`PasswdEntry.NumberReadsSpellings`; `PasswdEntry.PlusAndZeros` for `+042`).
- `strip_query_param` is documented to leave everything else as it was; it also drops empty pairs
  (`GrantUrl.StripUndoesAppendIff`; `GrantUrl.EmptyPairIsDropped` for `/p?a=1&&b=2`).
- Dropping a refilled bucket is documented to forget nothing. `RateLimiterRuns.ForgettingShowsBeforeRefill`
  says from which moment on that is so: from the one at which the dropped bucket is full again. A clock
  that goes back behind that moment shows the loss (`RateLimiterRuns.EvictionMustNotBeOvertaken`).
- The refill of the elapsed time bounds a window only on a clock that does not go back
  (`RateLimiterRuns.ClockMustNotGoBack`); the bound that holds on every clock counts its upward moves
  (`RateLimiterRuns.ClimbBound`).

## Model

| member | source | states |
|---|---|---|
| PasswdEntry.RejectControl | bins/passwd-append/src/entry.rs:92-103 | a value passes exactly when it holds no colon, line end or NUL |
| PasswdEntry.CleanMeans | bins/passwd-append/src/entry.rs:92-103 | the four bytes no value may hold, by number |
| PasswdEntry.RejectsFirstControl | bins/passwd-append/src/entry.rs:92-103 | the reason reported is that of the first offending byte |
| PasswdEntry.NameAlphabet | bins/passwd-append/src/entry.rs:106-136 | the bytes of a name are exactly the letters, digits, dot, underscore and dash |
| PasswdEntry.ValidateName | bins/passwd-append/src/entry.rs:106-136 | accepts exactly 1 to 32 bytes of the allowed alphabet without a leading dash, and reports emptiness, length, dash and alphabet in that order |
| PasswdEntry.ValidateAbsolute | bins/passwd-append/src/entry.rs:139-154 | accepts exactly the clean, non-empty paths that start with a slash; a control byte is reported before emptiness, and that before a missing slash |
| PasswdEntry.NewPasswd | bins/passwd-append/src/entry.rs:178-208 | an entry exists exactly when every field obeys its rule; otherwise the error is the one that field's own rules give for the first field that does not |
| PasswdEntry.NewGroup | bins/passwd-append/src/entry.rs:241-253 | a group entry exists exactly when its name and id obey their rules; a bad name is reported before a zero id |
| PasswdEntry.NumberOfDecimal | bins/passwd-append/src/nss.rs:84-87 | the printed decimal of every u32 reads back as that number |
| PasswdEntry.NumberReadsSpellings | bins/passwd-append/src/nss.rs:84-87 | a field reads as n exactly when it is an optional plus, any zeros and n's decimal |
| PasswdEntry.PlusAndZeros | bins/passwd-append/src/nss.rs:84-87 | the bytes of +042 read as 42 |
| PasswdEntry.LineSplitsBack | bins/passwd-append/src/entry.rs:218-226 | a printed line is one line, and splits back into its seven or four fields, each named in its place |
| PasswdDatabase.Fields | bins/passwd-append/src/nss.rs:63-77 | the two trimming loops compute the declared fields of a line |
| PasswdDatabase.FieldsBetween | bins/passwd-append/src/nss.rs:55-77 | indentation and line ends never matter; a comment or blank line has no fields, any other its colon-split |
| PasswdDatabase.IdOwnerIsFirst | bins/passwd-append/src/nss.rs:94-100 | the name found is that of the first record with the id, and none is found exactly when there is no such record |
| PasswdDatabase.IdOwnerSnoc | bins/passwd-append/src/nss.rs:94-100 | a record added at the end answers only for ids nobody before it has |
| PasswdDatabase.NameRecordIsFirst | bins/passwd-append/src/nss.rs:129-140 | the record found is the first with the name, whatever its id field holds, and none is found exactly when there is no such record |
| PasswdDatabase.NameRecordSnoc | bins/passwd-append/src/nss.rs:129-140 | a record added at the end answers only for names nobody before it has |
| PasswdDatabase.ScanVerdict | bins/passwd-append/src/nss.rs:150-190 | both scans say append exactly when neither id nor name is taken, and already present exactly when the id is |
| PasswdDatabase.ScanReports | bins/passwd-append/src/nss.rs:150-190 | whose the id is when it is taken, and which id the name has when only the name is |
| PasswdDatabase.RecordsAfterAddition | bins/passwd-append/src/nss.rs:302-311 | over any existing bytes, an appended line adds its own records and disturbs no other |
| PasswdDatabase.AdditionAddsOneLine | bins/passwd-append/src/nss.rs:302-311 | the lines of the file are those before and exactly the new one: nothing is glued to it and no blank line appears |
| PasswdDatabase.RecordsAfterAppend | bins/passwd-append/src/nss.rs:302-311 | over any existing bytes, an accepted entry adds exactly one record, its printed fields |
| PasswdDatabase.AppendResolves | bins/passwd-append/src/nss.rs:150-160 | after an allowed append, id and name resolve to each other and a rescan finds them present |
| PasswdDatabase.AppendKeepsOthers | bins/passwd-append/src/nss.rs:94-140 | every lookup of another id or another name answers what it answered before |
| PasswdDatabase.DatabaseFile.AppendLocked | bins/passwd-append/src/nss.rs:262-315 | each outcome with its exact cause; the bytes grow by the missing newline and the line on success and stay put otherwise |
| PasswdRaces.ExclusiveStep | bins/passwd-append/src/nss.rs:286-300 | every step keeps: one process at most between lock and close, and what it read is still the file |
| PasswdRaces.BytesNeverChange | bins/passwd-append/src/nss.rs:262-315 | in every interleaving, bytes once in the file stay where they are |
| PasswdRaces.AppendedIdentitiesAreDistinct | bins/passwd-append/src/nss.rs:250-315 | in every interleaving, the file is its initial records and one per writer, with ids and names distinct from each other and from the initial ones |
| PasswdRaces.OneReportPerIdentity | bins/passwd-append/src/nss.rs:230-243 | two processes that both report an append differ in id and in name |
| PasswdRaces.ReportedEntriesResolve | bins/passwd-append/src/nss.rs:94-140 | whoever reported an append resolves, by id and by name, in every later state |
| PasswdRaces.RefusalsStayTrue | bins/passwd-append/src/nss.rs:230-300 | in every run, an owner reported for an id owns it from then on, and a name reported taken stays taken by that record |
| PasswdRaces.AloneItFinishes | bins/passwd-append/src/nss.rs:262-315 | from any state with the lock free, a process left alone reaches the end and the file that the append of one process reaches |
| RateLimiter.Limiter.constructor | bins/endpoint-gateway/src/ratelimit.rs:74-80 | starts empty, with room for at least one key |
| RateLimiter.Limiter.SweepInPlace | bins/endpoint-gateway/src/ratelimit.rs:97-113 | the in-place sweep is the specified sweep of the oldest keys, sixteen at most |
| RateLimiter.Limiter.Allow | bins/endpoint-gateway/src/ratelimit.rs:87-141 | the in-place call is the specified call, and says yes exactly when that does |
| RateLimiter.SaturationInvisible | bins/endpoint-gateway/src/ratelimit.rs:101-107 | saturating u64 arithmetic gives the unbounded level and the unbounded refilled test, on any clock |
| RateLimiter.LevelOverTime | bins/endpoint-gateway/src/ratelimit.rs:130-135 | levels only rise, at most the refill rate, and writing a level back early loses nothing |
| RateLimiter.SweepOrder | bins/endpoint-gateway/src/ratelimit.rs:97-113 | a sweep examines exactly the oldest n keys, each once, and requeues the drained ones in order |
| RateLimiter.SweepForgets | bins/endpoint-gateway/src/ratelimit.rs:101-112 | exactly the refilled keys among those are dropped, and no other bucket is touched |
| RateLimiter.SweepLinked | bins/endpoint-gateway/src/ratelimit.rs:58-63 | the queue keeps listing exactly the map's keys, once each |
| RateLimiterRuns.CallKeepsValid | bins/endpoint-gateway/src/ratelimit.rs:87-141 | every call keeps queue and map in step, the map within capacity and the levels within the ceiling |
| RateLimiterRuns.CallOnOwnKey | bins/endpoint-gateway/src/ratelimit.rs:118-140 | a call with room is allowed exactly when its key has a whole unit left, and leaves the level spent |
| RateLimiterRuns.CallInNumbers | bins/endpoint-gateway/src/ratelimit.rs:87-141 | answer and bucket of a remembered key with the numbers written out: burst, thousandths, per minute over sixty |
| RateLimiterRuns.NewcomerInNumbers | bins/endpoint-gateway/src/ratelimit.rs:118-140 | a newcomer with room starts with a whole burst and queues last |
| RateLimiterRuns.OtherLevelsUnchanged | bins/endpoint-gateway/src/ratelimit.rs:41-51 | eviction and refusal change nobody's present or future allowance |
| RateLimiterRuns.RunKeepsValid | bins/endpoint-gateway/src/ratelimit.rs:58-63 | the invariant holds in every state of every run, on any clock |
| RateLimiterRuns.RunStaysCurrent | bins/endpoint-gateway/src/ratelimit.rs:130-140 | on a clock that does not go back, no bucket is ever ahead of it |
| RateLimiterRuns.BoundedRefinesIdeal | bins/endpoint-gateway/src/ratelimit.rs:87-141 | in every run on a clock that does not go back, each call not refused for lack of room gets the unbounded limiter's answer |
| RateLimiterRuns.IdealRunExists | bins/endpoint-gateway/src/ratelimit.rs:87-141 | every run has an unbounded run to compare with |
| RateLimiterRuns.ClimbBound | bins/endpoint-gateway/src/ratelimit.rs:88-89 | over any window of any run, on any clock, a key's allowed calls are at most its burst and the refill of the clock's upward moves |
| RateLimiterRuns.WindowBound | bins/endpoint-gateway/src/ratelimit.rs:88-89 | on a clock that does not go back that is its burst and the refill of the elapsed time |
| RateLimiterRuns.OwedSinceLastCall | bins/endpoint-gateway/src/ratelimit.rs:128-140 | in every run, whatever was evicted between, a key's next call with room is allowed exactly when what it left and the refill since make one token |
| RateLimiterRuns.PatientIsServed | bins/endpoint-gateway/src/ratelimit.rs:128-140 | whoever waits a token's refill between calls is never told to slow down |
| RateLimiterRuns.RefusalTurnsQueue | bins/endpoint-gateway/src/ratelimit.rs:114-116 | a refusal for lack of room drops nobody, turns the queue, and saw only drained buckets |
| RateLimiterRuns.NoRoomExactlyWhen | bins/endpoint-gateway/src/ratelimit.rs:91-117 | there is no room exactly for a newcomer to a full map none of whose sixteen oldest buckets is full again |
| RateLimiterRuns.RefusalsExamineAll | bins/endpoint-gateway/src/ratelimit.rs:47-51 | when consecutive refusals cover the queue, no remembered bucket had refilled at the first of them |
| RateLimiterRuns.ForgettingShowsBeforeRefill | bins/endpoint-gateway/src/ratelimit.rs:41-51 | a dropped key's allowance at a moment is what it would have been if and only if its bucket is full again by then |
| RateLimiterRuns.EvictionMustNotBeOvertaken | bins/endpoint-gateway/src/ratelimit.rs:41-51 | a run with an eviction and a clock that goes back, allowing a call the unbounded limiter refuses |
| RateLimiterRuns.ClockMustNotGoBack | bins/endpoint-gateway/src/ratelimit.rs:130-135 | on a clock that goes back, a burst of one is spent twice in a window with no elapsed time |
| HostTemplate.MatchTemplate | crates/weebo-si-crd/src/endpoint_auth.rs:375-410 | the loop over the template text is the first-split reading of the parsed template |
| HostTemplate.ParsesText | crates/weebo-si-crd/src/endpoint_auth.rs:375-410 | text without a brace is one literal |
| HostTemplate.ParsesSlot | crates/weebo-si-crd/src/endpoint_auth.rs:375-410 | literal, name between braces, and the rest parsed again |
| HostTemplate.ParsesUnclosed | crates/weebo-si-crd/src/endpoint_auth.rs:375-410 | a brace nobody closes makes the template unreadable |
| HostTemplate.FirstSplitIsLeftmost | crates/weebo-si-crd/src/endpoint_auth.rs:370-410 | what the first-split matcher returns is the user of a reading whose captures all end as early as they may |
| HostTemplate.LeftmostIsFirstSplit | crates/weebo-si-crd/src/endpoint_auth.rs:370-410 | and whenever there is such a reading, it returns that reading's user |
| HostTemplate.TemplateUsers | crates/weebo-si-crd/src/endpoint_auth.rs:414-460 | the recursive walk over the template text collects exactly the specified users |
| HostTemplate.ReadsMeans | crates/weebo-si-crd/src/endpoint_auth.rs:412-460 | what counts as a reading: no capture empty or across a dot, together spelling the stem |
| HostTemplate.WalkIsSound | crates/weebo-si-crd/src/endpoint_auth.rs:412-460 | every user found has non-empty dot-free captures that spell the stem |
| HostTemplate.FirstSplitIsWalked | crates/weebo-si-crd/src/endpoint_auth.rs:370-460 | whatever the first-split matcher returns is among the users the walk finds |
| HostSplits.AllSplitsIffRegular | crates/weebo-si-crd/src/endpoint_auth.rs:412-460 | the walk visits every declared split of every stem if and only if the template is regular |
| HostSplits.RegularUsers | crates/weebo-si-crd/src/endpoint_auth.rs:412-460 | for a regular template the users found are exactly those the template declares |
| HostSplits.SingleSeparatorsAreRegular | crates/weebo-si-crd/src/endpoint_auth.rs:267-271 | templates with one-character separators are regular |
| HostSplits.DoubleDashIsMisread | crates/weebo-si-crd/src/endpoint_auth.rs:439-447 | under a two-dash separator a declared user is not found |
| HostUsers.RegularIsMended | crates/weebo-si-crd/src/endpoint_auth.rs:412-460 | every regular template is mended |
| HostUsers.MendedIsExact | crates/weebo-si-crd/src/endpoint_auth.rs:412-460 | for a mended template every declared user of every stem is found, by another split where the declared one is skipped |
| HostUsers.UnmendedIsNotExact | crates/weebo-si-crd/src/endpoint_auth.rs:412-460 | a placeholder neither mended nor with a sliding literal before it has a stem whose declared user is not found |
| HostUsers.UsersExactIffMended | crates/weebo-si-crd/src/endpoint_auth.rs:412-460 | for up to three placeholders, and for more where no literal slides into the next, the users found are the declared ones on every stem if and only if the template is mended |
| HostUsers.SlidingTakesTwo | crates/weebo-si-crd/src/endpoint_auth.rs:439-447 | a literal slides only where it and the one behind it both hide their own occurrences |
| HostUsers.RegularIffExactEverywhere | crates/weebo-si-crd/src/endpoint_auth.rs:412-460 | a template is regular if and only if the users found are the declared ones wherever the user placeholder stands |
| HostUsers.IrregularYetExact | crates/weebo-si-crd/src/endpoint_auth.rs:439-447 | a template that is not regular and loses no user |
| HostOwnership.Read | crates/weebo-si-crd/src/endpoint_auth.rs:308-329 | the loop returns the readings of the first pattern that reads anybody, on the normalised stem |
| HostOwnership.StemIs | crates/weebo-si-crd/src/endpoint_auth.rs:308-313 | a host has a stem exactly when its normal form is the stem and then the suffix |
| HostOwnership.OutsideSuffixIsNobodys | crates/weebo-si-crd/src/endpoint_auth.rs:308-313 | outside the suffix nothing is read, nobody owns the host and nobody is told it is another's |
| HostOwnership.NormalIs | crates/weebo-si-crd/src/endpoint_auth.rs:309-309 | the normal form is what stands between whitespace, without its last dots, in lower case |
| HostOwnership.FirstMatchAnswers | crates/weebo-si-crd/src/endpoint_auth.rs:314-329 | the first pattern that matches answers, a template with all its users and a regex with its one in lower case; without one the host is unreadable |
| HostOwnership.SpellingDoesNotMatter | crates/weebo-si-crd/src/endpoint_auth.rs:308-313 | letter case and the dot of a fully qualified name do not change the reading |
| HostOwnership.AtMostOneOwner | crates/weebo-si-crd/src/endpoint_auth.rs:281-305 | two existing people never both own a host, and an owner is never told it is another's |
| HostOwnership.OwnershipIsDeclared | crates/weebo-si-crd/src/endpoint_auth.rs:281-293 | an owner's name can be read out of the host by the deciding template |
| HostOwnership.MendedOwnershipIsExact | crates/weebo-si-crd/src/endpoint_auth.rs:264-305 | under a mended template, and so under a regular one, owned means declared with no other existing person declared, and another's means not declared |
| TemplateLanguage.RenderWith | crates/weebo-si-crd/src/template.rs:146-197 | the one-pass loop renders the parsed template and asks for exactly the specified names |
| TemplateLanguage.CollectVariables | crates/weebo-si-crd/src/template.rs:135-142 | returns every name in order, or the template's fault |
| TemplateLanguage.UniqueReading | crates/weebo-si-crd/src/template.rs:124-197 | a well-formed sequence of pieces prints to a text exactly when it is that text's parse |
| TemplateLanguage.FaultsByShape | crates/weebo-si-crd/src/template.rs:146-197 | behind any proper front, an unclosed brace or pair of braces, or an illegal name, gives its own error |
| TemplateLanguage.NameCharacters | crates/weebo-si-crd/src/template.rs:172-190 | the characters a variable name may hold, one by one |
| TemplateLanguage.RenderIffBound | crates/weebo-si-crd/src/template.rs:126-142 | rendering succeeds exactly when variables succeeds and every listed name is bound |
| TemplateLanguage.ErrorIsTheFirst | crates/weebo-si-crd/src/template.rs:172-190 | the error is the first unbound name in reading order, or else the template's own fault |
| TemplateLanguage.SubstitutionIsInert | crates/weebo-si-crd/src/template.rs:185-192 | the result is fixed text no binding changes, with the bound values set between, never read again |
| TemplateLanguage.SelfBindingIsIdentity | crates/weebo-si-crd/src/template.rs:124-197 | binding every name to its own placeholder gives the template back |
| TemplateLanguage.RenderNamespace | crates/weebo-si-crd/src/template.rs:204-214 | a namespace returned is a DNS label; a rendered non-label is refused by name |
| TemplateLanguage.LabelMeans | crates/weebo-si-crd/src/template.rs:263-272 | a label is 1 to 63 allowed characters with no dash at either end |
| TemplateLanguage.LabelCharacters | crates/weebo-si-crd/src/template.rs:263-272 | the characters of a label, one by one |
| ValueTree.RenderValue | crates/weebo-si-crd/src/template.rs:220-237 | the walk renders every string in place, or fails with the error of some string of the tree |
| ValueTree.MergeValues | crates/weebo-si-crd/src/template.rs:244-259 | the in-place merge loop computes the specified merge |
| ValueTree.MergeAtPath | crates/weebo-si-crd/src/template.rs:239-259 | what the merge holds at every path: both merged, the only one that speaks, or nothing behind a replaced value |
| ValueTree.MergeByPaths | crates/weebo-si-crd/src/template.rs:239-259 | at every path, a value that is no object replaces what stood there, two objects become one with the keys of both, and the only one that speaks stands |
| ValueTree.RenderedAtPath | crates/weebo-si-crd/src/template.rs:216-237 | keys are untouched: what a path led to, it leads to rendered |
| ValueTree.RenderedEverywhere | crates/weebo-si-crd/src/template.rs:216-237 | at every path through fields and items, a string comes out rendered and everything else as it was |
| ValueTree.UnrenderedHasPlace | crates/weebo-si-crd/src/template.rs:220-237 | a tree that does not render holds a string that does not |
| ValueTree.RenderCommutesWithMerge | crates/weebo-si-crd/src/argo.rs:239-247 | the merge of two renderings is the rendering of the merge, at any depth |
| ArgoApplication.CollectValueViolations | crates/weebo-si-crd/src/argo.rs:377-406 | reports exactly the faults of the strings in a value tree |
| ArgoApplication.ValidateShape | crates/weebo-si-crd/src/argo.rs:150-196 | reports every violation of a template and nothing else |
| ArgoApplication.BlankIsTrimmed | crates/weebo-si-crd/src/argo.rs:159-170 | a field is blank exactly when trimming leaves nothing of it |
| ArgoApplication.RenderApplication | crates/weebo-si-crd/src/argo.rs:226-280 | succeeds exactly when the specified two-pass rendering does, with its result; the error is the namespace's, then one of the team's values, then one of the person's own, then the name's, then the source's |
| ArgoApplication.RenderedFieldByField | crates/weebo-si-crd/src/argo.rs:226-280 | every field of a rendered application against its own template, and its values against both trees |
| ArgoApplication.CleanTemplatesRender | crates/weebo-si-crd/src/argo.rs:148-280 | with nothing reported and the base variables bound, only the namespace label or the person's own overlay can still fail |
| ArgoApplication.ValidationIsExact | crates/weebo-si-crd/src/argo.rs:148-280 | nothing is reported if and only if chart or path, server or name, and the required fields are given and every string renders from the variables a person resolves |
| ArgoApplication.RenderingTemplatesAreClean | crates/weebo-si-crd/src/argo.rs:171-193 | a template that renders for somebody has no fault of its strings reported |
| ArgoApplication.RenderingIsNotEnough | crates/weebo-si-crd/src/argo.rs:150-170 | a template without chart and path renders as well, and is refused |
| UrlFence.PercentDecode | crates/weebo-si-crd/src/identity.rs:559-582 | the index loop is one specified decoding pass |
| UrlFence.DecodeOfEncode | crates/weebo-si-crd/src/identity.rs:558-582 | one pass undoes percent-encoding of any bytes, in either letter case |
| UrlFence.PassesReachNorm | crates/weebo-si-crd/src/identity.rs:536-550 | repeated passes end, within as many as there are bytes, at the normal form |
| UrlFence.ClimbsOut | crates/weebo-si-crd/src/identity.rs:536-550 | refuses exactly the URLs that show a dot-dot segment on some pass or still change on the fourth |
| UrlFence.NoDecodingClimbs | crates/weebo-si-crd/src/identity.rs:532-550 | past the check, no sequence of single decodings in any order shows a dot-dot segment |
| UrlFence.RefusalsAreEarned | crates/weebo-si-crd/src/identity.rs:528-550 | a refused URL has a dot-dot segment when fully decoded, or is not settled by the fourth pass |
| ApplicationPlan.UserBindings | crates/weebo-si-crd/src/user.rs:234-248 | binds the five base variables and no other, each to its field, absent ones to nothing |
| ApplicationPlan.ListedOrUnderPrefix | crates/weebo-si-crd/src/identity.rs:516-527 | a value is allowed exactly when it is listed or starts with a listed prefix |
| ApplicationPlan.Utf8Concat | crates/weebo-si-crd/src/identity.rs:536-550 | the bytes of two strings joined are their bytes joined |
| ApplicationPlan.Utf8OfOne | crates/weebo-si-crd/src/identity.rs:536-550 | a character below 0x80 is its own byte, and no other has such a byte |
| ApplicationPlan.Utf8Spells | crates/weebo-si-crd/src/identity.rs:536-550 | the bytes spell back every character |
| ApplicationPlan.DotDotInText | crates/weebo-si-crd/src/identity.rs:536-550 | the bytes show a dot-dot segment exactly when the string does |
| ApplicationPlan.TemplateViolations | crates/weebo-si-crd/src/identity.rs:438-466 | reports every violation of a team's template and nothing else: its own, its project and its repository |
| ApplicationPlan.PlanApplication | crates/weebo-si-crd/src/identity.rs:354-420 | a plan exists exactly when every fence lets it through, and is then the rendering itself; a refusal holds the first reason met, and all of a template's violations |
| ApplicationPlan.PlannedUrlNeverClimbs | crates/weebo-si-crd/src/identity.rs:390-411 | a planned application is enabled, its project and repository URL are allow-listed, no segment of the URL is dot-dot for any server, and the namespace is a label |
| ApplicationPlan.OnlyTheNamespaceCanRefuse | crates/weebo-si-crd/src/identity.rs:380-395 | for a checked team and no overlay, rendering fails exactly when the namespace is not a label |
| Catalog.MergeCatalogs | crates/weebo-si-crd/src/merge.rs:32-69 | the nested loops compute the specified merge, and report in order exactly the offers that differ from the winner |
| Catalog.LosersConcat | crates/weebo-si-crd/src/merge.rs:47-59 | conflicts come in the order of the offers |
| Catalog.FirstDefinitionWins | crates/weebo-si-crd/src/merge.rs:41-66 | every key has its first definition, cluster first, then teams in order |
| Catalog.ClusterIsPrefix | crates/weebo-si-crd/src/merge.rs:41-45 | the cluster catalogue is a prefix of the result |
| Catalog.NoDuplicateAdded | crates/weebo-si-crd/src/merge.rs:60-64 | no entry added has a key seen before it |
| Catalog.OfferedKeyIsDefined | crates/weebo-si-crd/src/merge.rs:48-66 | every key any team offers is defined in the result |
| Catalog.MergeIsIdempotent | crates/weebo-si-crd/src/merge.rs:32-69 | merging the result with the same teams again gives the same catalogue and the same conflicts |
| DwocPin.OrderIsSorted | crates/weebo-si-crd/src/team.rs:244-248 | teams come out by priority, then name |
| DwocPin.OrderIsStable | crates/weebo-si-crd/src/team.rs:244-248 | teams of one priority and one name keep the order they were listed in |
| DwocPin.NameOrder | crates/weebo-si-crd/src/team.rs:230-236 | of two names the first character that differs decides, and a prefix comes first |
| DwocPin.OrderIgnoresArrangement | crates/weebo-si-crd/src/team.rs:230-248 | with unique names, however the teams were listed they resolve in one order |
| DwocPin.Resolve | crates/weebo-si-crd/src/dwoc_pin.rs:200-248 | returns the specified catalogue, grants and conflicts |
| DwocPin.FirstTeamWins | crates/weebo-si-crd/src/dwoc_pin.rs:201-213 | a key means what the cluster says, or else what the first team in resolution order to define it says |
| DwocPin.ConflictsAreTheLosingTeams | crates/weebo-si-crd/src/dwoc_pin.rs:240-247 | a team is reported for a key exactly when it offers something else for it |
| DwocPin.GrantedTeams | crates/weebo-si-crd/src/dwoc_pin.rs:217-238 | exactly the teams with a block of their own have a grant |
| DwocPin.GrantOrigin | crates/weebo-si-crd/src/dwoc_pin.rs:217-238 | a grant is that of the last team of its name: its keys in order, the cluster default behind them unless among them, its own default |
| DwocPin.ResolutionIgnoresArrangement | crates/weebo-si-crd/src/dwoc_pin.rs:200-248 | catalogue, grants and conflicts do not depend on how the teams were listed |
| DwocPin.Validate | crates/weebo-si-crd/src/dwoc_pin.rs:325-367 | reports every violation of a resolved configuration and nothing else |
| DwocPin.ValidationIsExact | crates/weebo-si-crd/src/dwoc_pin.rs:325-367 | nothing is reported if and only if keys are unique, the default is catalogued, and every grant is declared, non-empty, catalogued and holds its default |
| DwocPin.ResolvedGrantsAreSound | crates/weebo-si-crd/src/dwoc_pin.rs:217-238 | a resolution validated against its own teams has no undeclared team and no empty grant |
| DwocPin.OnlyTheDefaultCanBeUnknown | crates/weebo-si-crd/src/dwoc_pin.rs:227-229 | an allowed key is unknown exactly when it is a cluster default nobody catalogued |
| DwocPin.DuplicatesAreTheClusters | crates/weebo-si-crd/src/dwoc_pin.rs:328-333 | a key is duplicated after resolution exactly when the cluster catalogue duplicated it |
| DwocPin.OutsideDefaultsAreTheTeams | crates/weebo-si-crd/src/dwoc_pin.rs:358-363 | a default outside its grant is one its team named, neither its own key nor the cluster's |
| HostCookie.SlideMovesOnlyExpiry | bins/endpoint-gateway/src/state.rs:726-745 | a slide moves the expiry, and only that, strictly forward, to a full lifetime or to the cap |
| HostCookie.SlidesExactlyWhen | bins/endpoint-gateway/src/state.rs:500-513 | a value slides exactly when sliding is on and it is a live cookie past half-life with session left and something to gain |
| HostCookie.RedemptionLifetime | bins/endpoint-gateway/src/http.rs:653-665 | a redeemed cookie is the session's identity, with a full lifetime or the rest of the session |
| HostCookie.GrantLifetime | bins/endpoint-gateway/src/http.rs:777-789 | a grant opens exactly for its own lifetime, and is its session's identity |
| HostCookie.RedeemsExactlyWhen | bins/endpoint-gateway/src/http.rs:640-665 | exactly an open grant is redeemed, into a value that is no grant and refreshes nothing |
| HostCookie.SessionYieldsCookie | bins/endpoint-gateway/src/http.rs:640-665 | a sign-in, a grant and its redemption, each in time, leave exactly the cookie of that session in circulation besides them |
| HostCookie.CookiesNeverOutliveTheirSession | bins/endpoint-gateway/src/http.rs:777-784 | in every run, a host cookie says who its session said and ends no later than it, and a grant less than its own lifetime after it |
| HostCookie.SlidesAreApart | bins/endpoint-gateway/src/state.rs:731-736 | two slides of one cookie are at least half a lifetime apart |
| HostCookie.SlidesAreBounded | bins/endpoint-gateway/src/state.rs:718-745 | a session leaves room for only so many half-lives of slides |
| HostCookie.CapIsFinal | bins/endpoint-gateway/src/state.rs:736-740 | a cookie at its cap never slides again |
| GrantUrl.StripKeeps | bins/endpoint-gateway/src/http.rs:568-584 | keeps the path and exactly the non-empty pairs of other names, in order |
| GrantUrl.StripSurvivors | bins/endpoint-gateway/src/http.rs:568-584 | exactly the pairs that are not empty, not the bare name and not the name with a value survive, as often as they were there |
| GrantUrl.StripInOrder | bins/endpoint-gateway/src/http.rs:568-584 | the survivors keep their order |
| GrantUrl.StripIsIdempotent | bins/endpoint-gateway/src/http.rs:568-584 | stripping twice is stripping once |
| GrantUrl.StripUndoesAppendIff | bins/endpoint-gateway/src/http.rs:788-789 | stripping gives back the URL the grant was appended to exactly when that had no empty pair and no grant |
| GrantUrl.EmptyPairIsDropped | bins/endpoint-gateway/src/http.rs:568-584 | /p?a=1&&b=2 comes back without its empty pair |
| GrantUrl.RedeemReadsTheGrant | bins/endpoint-gateway/src/http.rs:223-231 | the grant read back is the one appended, whatever the target already carried |
| GrantUrl.QueryOfSnoc | bins/endpoint-gateway/src/http.rs:223-231 | of two pairs with one name the later counts, and a pair without a value for nothing |
| GrantUrl.LocationStaysOnHost | bins/endpoint-gateway/src/http.rs:621-627 | a redemption goes to the same host, the same path and the pairs that survive, or nowhere |
| Cidr.SameNetworkIsSameQuotient | bins/endpoint-gateway/src/config.rs:562-568 | for every width and prefix, equal masked words are equal quotients by the host bits |
| Cidr.ContainsIffQuotient | bins/endpoint-gateway/src/config.rs:559-577 | membership is same family after unmapping and same quotient |
| Cidr.MembershipInNumbers | bins/endpoint-gateway/src/config.rs:556-577 | an IPv4 network holds an IPv4 address and its mapped IPv6 spelling alike and no other IPv6 address; an IPv6 network holds neither spelling |
| Cidr.NestedOrDisjoint | bins/endpoint-gateway/src/config.rs:559-577 | two networks that share an address are nested |
| Cidr.DottedPrefix | bins/endpoint-gateway/src/config.rs:525-539 | one to three octets give a network of as many whole octets, the rest zero |
| Cidr.DottedPrefixMatchesOctets | bins/endpoint-gateway/src/config.rs:525-539 | the dotted form holds exactly the addresses that start with its octets |

## Left out

- HTTP handlers, routing, proxying, signals and start-up: input and output plumbing.
- Sealing, sign-in, token introspection and the identity caches: a sealed value that opens is a payload that was minted. A host cookie minted before it carried its session's end is not part of the runs.
- Redeeming a grant at most once: it rests on a cache and a get-then-insert that are not modelled.
- Probe trust, workload adapters and revocation.
- The other features' `resolve` and `validate`: the shape of `dwoc-pin` again.
- Reconcile loops, events, status, schemas, metrics and logs; the texts of log lines and the lossy decoding of names in them.
- The shell probe, the kinds of operating-system errors, and text parsing of IP addresses beyond octets.
- A poisoned lock, which the limiter answers with yes.
- PasswdDatabase.DatabaseFile.AppendLocked: a write lands whole or not at all; a torn write is not modelled.
- PasswdRaces.AppendedIdentitiesAreDistinct: writers that do not take the lock are not modelled.
- ValueTree.RenderValue: which of several errors is reported, which depends on the order of the keys, is not stated.
- ArgoApplication.ValidateShape: which violations are reported is stated, their order and repetition are not.
- ArgoApplication.CollectValueViolations: the order and repetition of the reports are not stated.
- DwocPin.Validate: which violations are reported is stated, their order and repetition are not.
- HostOwnership.Read: a regular-expression pattern is a function from stem to optional user.
- HostUsers.UsersExactIffMended: templates of more than three placeholders in which a bordered literal overlaps itself on its way into another bordered one are left open; for them MendedIsExact still says when no user is lost, and whether an unmended one loses a user depends on placeholders further off.
- ApplicationPlan.TemplateViolations: the order and repetition of the reports are not stated.
- Cidr.DottedPrefix: starts from the parsed octets.
- The character tables of Rust's `char::is_whitespace` and of the C library's `isspace` are taken as given.
