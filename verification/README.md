# Gateway verification

Dafny models of the parts of this gRPC-to-JSON gateway that decide something, with proofs about
all their inputs, runs or reachable states. Every module is named after its file.

| modules | what they model |
|---|---|
| `Escape` | percent-decoding of path parameters: a validating loop and a decoding loop that step differently |
| `Program`, `Pattern`, `Template` | the path-pattern machine: the checker that builds patterns, the matcher and the printer that trust it, and the operation layout of path templates |
| `Dispatch`, `Mux` | the request multiplexer, which overwrites the last path component and the verb while it tries its handlers |
| `Descriptor` | message lookup through enclosing scopes, and the search for validation rules over a type graph that may be cyclic, with a cache on each message |
| `Naming` | OpenAPI definition names: shortest unique suffixes |
| `Schema`, `Bags`, `FieldMask`, `Descents` | field masks from JSON bodies: two work-lists over objects whose members come in any order, and the mask read off the keys of the body |
| `Query`, `OneKey`, `Independence`, `Orders` | query parameters written into a message, over keys that come in any order: what one key does, and the exact condition under which two keys may change places |
| `Aliases` | reservation of Go package names and the open-ended search for a free one |
| `Camel` | Go identifiers from protocol buffer names |
| `Digits`, `Header` | the log header written by hand into a scratch buffer |
| `Sinks` | the severity files of the logger, opened lazily |
| `VLevels` | the logger's verbosity state under every interleaving of its readers and writers |
| `Text` | byte strings, joining and splitting |

Loops and objects that the gateway updates in place are methods and classes here. Each is proved
against a function or predicate of its inputs or its old state (`MatchSpec`, `ServeSpec`,
`Search`, `IsMask`, `Populate`, ...), and the properties are lemmas about that function. Where a
loop's body and its state were too much for one proof obligation, the round is a method of its own
(`CheckOp`, `MatchOp`, `CutOff`, `SpreadItem`, ...) that the loop calls.

A range over a Go map is a loop that picks any remaining key (`:|`); its contract holds for every
choice, and what must not depend on the order is proved not to.

Verify everything with `dafny verify dfyconfig.toml`.

## Where code and comments differ

* The naming strategies are documented to give unique names. With the legacy strategy, which joins
  components without a separator, `.ab.c` and `.a.bc` both become `abc`. `Naming.LegacyNamesExact`
  gives the exact condition on the vocabulary of components.
* `HasRule` is documented to answer whether a rule is defined recursively. After an earlier call on
  a cyclic graph, a cached negative can be wrong (`Descriptor.StaleNegative`).
  `Descriptor.RightExactlyWhenFree` gives the exact condition on the caches.
* The dispatch loop can split the last path component twice, or give up on a component that starts
  with a verb. `Dispatch.DispatchRefines` gives the exact condition on the component.
* Query parameters are documented to be populated into the message; two keys that meet in a oneof
  can succeed or fail depending on the order in which the map of values comes
  (`Independence.OneofOrderShows`). `Independence.CommuteExactly` gives the exact condition on two
  keys.
* The log header is commented as `Lmmdd hh:mm:ss.uuuuuu threadid`; the code writes the year, puts
  dashes between the date's fields, has no space between severity and year, and writes the process
  id. The model follows the code.

## Model

| member | source | states |
|---|---|---|
| Escape.WellFormedMeans | gateway/runtime/pattern.go:342-359 | a text is accepted exactly when every `%` in it, wherever the scan would step, is followed by two hex digits |
| Escape.Validate | gateway/runtime/pattern.go:342-359 | the validating loop stops at the leftmost bad `%`, or at the end when there is none, and its count is zero only for texts without `%` |
| Escape.DecodeAfterKeptPercent | gateway/runtime/pattern.go:367-380 | copying a kept escape one byte at a time decodes the same as skipping it whole: its digits are never taken for the start of an escape |
| Escape.DecodeLoop | gateway/runtime/pattern.go:365-382 | on accepted texts the second loop never reads past the end and produces what a one-pass recursive decoder produces |
| Escape.Unescape | gateway/runtime/pattern.go:332-383 | both passes with their early exits agree with the one-pass decoder, in every mode, single- or multi-segment |
| Escape.FailsExactlyOnBadEscape | gateway/runtime/pattern.go:334-359 | outside legacy mode decoding fails exactly when some `%` lacks two hex digits, and reports up to three bytes from the leftmost such `%`; legacy mode never fails |
| Escape.DecodeOfJoin | gateway/runtime/pattern.go:201-204 | decoding the joined capture of a deep wildcard is joining the decoded components, and both fail together |
| Escape.SegmentsSurvive | gateway/runtime/pattern.go:315-329 | splitting a decoded capture at `/` gives back the decoded components exactly when no escaped slash was opened; the two restricted modes never open one |
| Escape.CountAfterDecode | gateway/runtime/pattern.go:365-382 | conservation: a byte that is neither `%` nor a hex digit occurs after decoding as often as before, plus once for each of its escapes that was opened |
| Escape.KeptBytes | gateway/runtime/pattern.go:290-329 | every reserved byte of section 1.5 of RFC 6570 (or the slash, in its mode) occurs as often after decoding as before |
| Escape.DecodeOfEncode | gateway/runtime/pattern.go:315-383 | every percent-encoding (section 2.1 of RFC 3986) that escapes at least `%`, with digits in either case, is read as the text, the escapes of protected bytes left as written and all others opened; the protected bytes are the reserved set of section 1.5 of RFC 6570, the slash, or none |
| Escape.EncodingOf | gateway/runtime/pattern.go:342-359 | nothing else is accepted: every accepted text is such an encoding of some byte string |
| Escape.UnescapeOfEncode | gateway/runtime/pattern.go:332-383 | single segments of every encoding give the text back, in every mode but legacy; a deep wildcard's text keeps the escapes its mode protects; legacy mode keeps all of them |
| Escape.DigitsMean | gateway/runtime/pattern.go:278-312 | the hex digits are the characters of `0123456789abcdef` and `0123456789ABCDEF`, each with the value of its place |
| Program.StackIsPredicted | gateway/runtime/pattern.go:74-133 | on a checked program the matcher never runs off its stack, and after each instruction the stack is exactly as high as computed without running it and within the preallocated size |
| Program.MaxDepthAttained | gateway/runtime/pattern.go:129-131 | the preallocated size is reached after some instruction: it is not larger than needed |
| Program.StackCheckIsExact | gateway/runtime/pattern.go:100-123 | among programs with one deep wildcard at most and positive concatenations, the stack check refuses exactly those that some path drives off the stack; each accepted one matches some path in full |
| Program.TailAfterDeep | gateway/runtime/pattern.go:79-99 | the tail length is the number of single-component instructions after the deep wildcard |
| Program.AfterDeep | gateway/runtime/pattern.go:195-206 | once the deep wildcard has run, the position plus the single-component instructions still to come is the number of components, at every later instruction |
| Program.NeverShortAfterDeep | gateway/runtime/pattern.go:179-182 | so the end-of-path exit cannot be taken after a deep wildcard |
| Program.EachComponentOnce | gateway/runtime/pattern.go:173-219 | a run consumes the path left to right: the pieces taken by its instructions, end to end, are the part of the path it passed over, one component for each single-component instruction |
| Program.NeverMalformed | gateway/runtime/pattern.go:188-204 | a program stops at a malformed escape on no path whose components are all well formed, and in legacy mode on no path at all |
| Program.RunReports | gateway/runtime/pattern.go:188-204 | a run that stops at a malformed escape reports the leftmost one of some part of the path, and never does so in legacy mode |
| Program.PrinterNeverShorter | gateway/runtime/pattern.go:240-260 | the printer cannot run off its stack on a checked program: its stack is the matcher's plus one entry for each capture so far |
| Program.DropNopsPreserves | gateway/runtime/pattern.go:77-78 | leaving no-ops out of the compiled pattern changes neither what it matches nor what it prints |
| Pattern.CheckOp | gateway/runtime/pattern.go:74-133 | one round of the checker goes on exactly when the program extended by this instruction is safe, and then tracks its depth, maximum, tail length, deep wildcard and variables |
| Pattern.PairMeans | gateway/runtime/pattern.go:74-127 | which numbers stand for which instruction: a literal or a variable name may be anywhere in the pool, a concatenation takes at least one |
| Pattern.NewPattern | gateway/runtime/pattern.go:55-142 | accepts exactly version 1 lists of pairs that are readable, never underflow and hold one deep wildcard at most; what it builds reads as the same program without no-ops |
| Pattern.DropNopsProfile | gateway/runtime/pattern.go:77-78 | the static quantities of a program (depth, maximum, tail length, safety) survive dropping its no-ops |
| Program.CapturesRan | gateway/runtime/pattern.go:211-214 | at every moment of a run the captures made so far carry the names the program captures so far, in order |
| Pattern.ReadBackShape | gateway/runtime/pattern.go:116-118 | the variables of a pattern are the names its program captures, in order |
| Pattern.OpReached | gateway/runtime/pattern.go:173-216 | whenever the matcher reaches an operation, its stack is high enough, the stack after it fits the preallocated size, and its operand indexes the pool or the variables |
| Pattern.MatchOp | gateway/runtime/pattern.go:176-215 | one round of the matching loop does to position, stack and captures what the machine's step does, and never crashes |
| Pattern.AttachedIsWritten | gateway/runtime/pattern.go:157-170 | what is matched is the request as it was written: the components joined, then a colon and the verb unless the pattern has that verb itself; a pattern with another verb is not tried |
| Pattern.MatchAndEscape | gateway/runtime/pattern.go:156-225 | on every pattern the checker built, for all components, verbs and modes, no index is out of range and the answer is that of running its program over the path with the verb put back |
| Pattern.StringOp | gateway/runtime/pattern.go:243-259 | one round of the printing loop draws its instruction; whenever it reaches an operation, its stack is high enough and the operand is in range |
| Pattern.String | gateway/runtime/pattern.go:240-266 | on every pattern the checker built it ends without underflow with what drawing the program gives |
| Template.LayoutExists | examples/internal/proto/examplepb/echo_service.pb.gw.go:1528-1546 | every template has an operation list and pool of the generated tables' form, so the theorems below speak of every template |
| Template.LayoutAccepted | gateway/runtime/pattern.go:55-142 | the layout of a template is accepted exactly when the version is 1 and it has one deep wildcard at most |
| Template.TailOfCode | gateway/runtime/pattern.go:79-99 | the tail length of a layout is the number of components the template needs after its deep wildcard |
| Template.MatchIsSplit | gateway/runtime/pattern.go:156-225 | in every mode, on paths whose components decode (in legacy mode, on all), a pattern matches exactly when the path splits over the template's segments, literals compared as they came in; every split gives the same bindings |
| Template.VariableBound | gateway/runtime/pattern.go:188-224 | a match binds the template's variables and nothing else, each to the "/"-join of the texts of its own segments (of its last occurrence): a literal as it is, the component of a `*` fully decoded, those of a `**` decoded as the mode says, nothing decoded in legacy mode; a lone `**` that matched nothing gives the empty text |
| Template.PrintsBack | gateway/runtime/pattern.go:240-266 | printing a pattern built from a template gives the template in its own notation, verb included |
| Template.EchoTable | examples/internal/proto/examplepb/echo_service.pb.gw.go:1529-1529 | the generated table of `/v1/example/echo/{id}`, number by number, is a layout of that template |
| Template.DeepTable | gateway/runtime/mux_test.go:422-445 | so is the table of `/foo/{id=**}`, which has the deep wildcard's code |
| Dispatch.VerbAtLastColon | gateway/runtime/mux.go:362-368 | a colon-free verb is found as a suffix exactly when it is the text after the last colon |
| Dispatch.RoundAgrees | gateway/runtime/mux.go:353-389 | in every mode a round of the loop keeps "last component, colon and verb rebuild the path as it came in", and its match is the stateless match of that path |
| Dispatch.CalmOutcome | gateway/runtime/mux.go:378-389 | in legacy mode, and in every mode on components that decode, a registered pattern either binds or does not match |
| Dispatch.DispatchRefines | gateway/runtime/mux.go:353-392 | in every mode and for every path dispatch is the stateless first match, malformed escapes reported on the way included, for all handler lists with colon-free verbs exactly when the last component is safe: it cannot be split twice, nor at its start |
| Dispatch.UnsafeExposed | gateway/runtime/mux.go:366-376 | in every mode every unsafe last component has two handlers with colon-free verbs on which the loop and the stateless first match differ |
| Dispatch.OneColonIsSafe | gateway/runtime/mux.go:354-376 | a last component with one colon at most, not at its start, is safe |
| Mux.ComponentsExactly | gateway/runtime/mux.go:325-338 | the components are the only ones that, without a slash in any of them, put together give the path after its first byte: the raw path outside legacy mode when there is one, else the decoded path; joined with `/`, or with `/` or `%2F` at each joint when all characters are unescaped |
| Mux.ToUpperMeans | gateway/runtime/mux.go:340-341 | the overriding method has each lower-case letter replaced by the upper-case one in its place and everything else unchanged |
| Mux.ServeMux.Handle | gateway/runtime/mux.go:289-291 | the newest registration goes first for its method and no other method changes; for each method the table stays the registrations in reverse order |
| Mux.ServeMux.TryHandlers | gateway/runtime/mux.go:350-392 | the loop over the request's own method leaves the events, components and verb of the recursive first-match reading |
| Mux.ServeMux.ServeHTTP | gateway/runtime/mux.go:310-432 | for some iteration order of the table the events are those of the specification, and the request's method is overwritten exactly by an accepted override |
| Mux.TurnedAway | gateway/runtime/mux.go:311-348 | the hook's refusal is the answer exactly when the hook refuses, 400 exactly when it does not and the path has no slash in front, and a form POST with an override and a bad form is refused before any handler is tried |
| Mux.ThreeWays | gateway/runtime/mux.go:350-431 | in every mode a request whose path decodes is answered by its own method (a handler call, or 404 for a component that is all verb), else by a match under another method, else by 404 |
| Mux.OneAnswer | gateway/runtime/mux.go:310-432 | every request in legacy mode, and in every mode each one whose path decodes, gets exactly one handler call or error answer, for every table and iteration order |
| Mux.OneAnswerExactly | gateway/runtime/mux.go:379-412 | a request that reaches the routing loop gets one answer from every table exactly when no component of its path has a malformed escape or the mode is legacy; otherwise a table with one pattern makes it get two |
| Mux.NotAllowedExactly | gateway/runtime/mux.go:350-431 | a request is answered 405 exactly when its own method left it open, some pattern under another method matches the components and verb left, and it is not in the path-length fallback; left open with no such match it gets 404; no iteration order shows in that |
| Mux.ScanIsOnePass | gateway/runtime/mux.go:396-428 | the nested loops over the other methods are one pass over all their handlers, in the order of the range |
| Mux.OthersAnswer | gateway/runtime/mux.go:396-431 | in every mode and on every path that pass reports the malformed escapes met before the first handler that matches, and then gives its answer; with no match it reports all of them and then answers 404 |
| Mux.NewestMatchServes | gateway/runtime/mux.go:289-392 | in every mode a request whose path is a slash and these components put together, all of which decode and the last of which is safe, is handled by the most recently registered pattern of its method that matches the components, with the bindings of that match |
| Mux.NoMatchNoHandler | gateway/runtime/mux.go:350-392 | when no registration of the method matches those components, none of its handlers is invoked |
| Mux.StatelessIsSplit | gateway/runtime/mux.go:353-389 | such a match of a pattern built from a template is a split of the components over the template, its verb cut off the last one after a colon; all splits give the same parameters |
| Descriptor.InnermostWins | gateway/internal/descriptor/registry.go:311-318 | a relative name means the innermost enclosing scope that has it |
| Descriptor.LookupMeans | gateway/internal/descriptor/registry.go:298-320 | for a location of any dotted components, with or without a dot in front, a relative name means the message in the innermost scope that has one of that name, and nothing exactly when no scope down to the root has one; a name with a dot in front means itself |
| Descriptor.TargetMeans | gateway/internal/descriptor/types.go:159-176 | the type of a message field is looked up by its name from the package of its message outward |
| Descriptor.Lookup | gateway/internal/descriptor/registry.go:298-320 | the loop over the shrinking scope finds the same message as the search from the innermost scope outward, or none |
| Descriptor.Message.HasRule | gateway/internal/descriptor/types.go:151-186 | ends on every finite graph, cyclic or not, and its answer and all caches it writes in place are those of the search function |
| Descriptor.MarkShrinks | gateway/internal/descriptor/types.go:174-174 | each mark uses up one unmarked edge of the graph, which is why the search ends on cycles |
| Descriptor.TrueIsRight | gateway/internal/descriptor/types.go:152-182 | on any graph and any sound caches a positive answer means a rule is reachable, and every cached positive stays sound |
| Descriptor.ExactUntilFirstYes | gateway/internal/descriptor/types.go:151-186 | from empty caches, or after calls that all answered no, the answer is yes exactly when a rule is reachable, even on cycles |
| Descriptor.RightExactlyWhenFree | gateway/internal/descriptor/types.go:163-169 | over the caches of any earlier calls, on any graph, the answer is right exactly when no rule is reachable or one is reachable without passing a field cached as negative |
| Descriptor.AcyclicCallsExact | gateway/internal/descriptor/types.go:151-186 | on graphs without cycles other than self references every call of every sequence answers exactly whether a rule is reachable |
| Descriptor.StaleNegative | gateway/internal/descriptor/types.go:163-182 | three messages in a cycle where a first, correct answer leaves a negative mark that makes the next answer wrong |
| Descriptor.AskTwice | gateway/internal/descriptor/types.go:163-182 | three such messages, built and asked: the first is answered yes and the third then no, although a rule is reachable from it |
| Naming.FileSuffixes | gateway/protoc-gen-openapiv2/internal/genopenapi/naming.go:71-79 | each depth lists the suffixes of that many components of all longer names |
| Naming.ResolveUnique | gateway/protoc-gen-openapiv2/internal/genopenapi/naming.go:63-110 | every message and nothing else gets a name: the join of its chosen slice |
| Naming.OnceIsUnique | gateway/protoc-gen-openapiv2/internal/genopenapi/naming.go:81-89 | counting one occurrence of a suffix is the same as no other name ending in it |
| Naming.DepthIsLeast | gateway/protoc-gen-openapiv2/internal/genopenapi/naming.go:91-102 | the chosen depth is the least non-trivial one whose suffix no other name ends in, or the whole name when there is none |
| Naming.SlicesDiffer | gateway/protoc-gen-openapiv2/internal/genopenapi/naming.go:91-108 | different proper names get different slices, with any amount of extra context |
| Naming.SimpleNamesDiffer | gateway/protoc-gen-openapiv2/internal/genopenapi/naming.go:47-56 | the simple strategy's joined names are pairwise different |
| Naming.SimpleNameIsShortest | gateway/protoc-gen-openapiv2/internal/genopenapi/naming.go:47-56 | as text, a simple name is the shortest ending of the message's name, cut at a dot, that no other name has, or the whole name when every ending is shared |
| Naming.PrefixFreeIsEnough | gateway/protoc-gen-openapiv2/internal/genopenapi/naming.go:35-45 | a vocabulary in which no component is a proper prefix of another can be read in one way only |
| Naming.LegacyNamesExact | gateway/protoc-gen-openapiv2/internal/genopenapi/naming.go:35-45 | the legacy strategy gives unique names to all lists of names over a vocabulary exactly when no text can be read as words of the vocabulary in two ways |
| Naming.LegacyNamesCanMeet | gateway/protoc-gen-openapiv2/internal/genopenapi/naming.go:43-45 | two concrete names that share a legacy name |
| FieldMask.BuildPathsBlindly | gateway/runtime/fieldmask.go:124-153 | for every member order the work-list ends and lists each leaf path of the value, by its own structure, exactly once |
| FieldMask.BlindBelow | gateway/runtime/fieldmask.go:55-62 | listing leaf paths below a prefix is listing them and then prefixing each, as the caller does |
| FieldMask.SpreadItem | gateway/runtime/fieldmask.go:43-97 | one object's members, in any order, account for all its paths between those printed and those queued and for all its trouble, and the queue holds less than the object; it stops only at trouble the object has |
| FieldMask.WalkItems | gateway/runtime/fieldmask.go:35-102 | the outer work-list ends, stops exactly when some member anywhere cannot be described (with an error, or a panic on an `Any` that is not an object, that the body has), and otherwise prints the paths of the recursive enumeration |
| FieldMask.SortedOnce | gateway/runtime/fieldmask.go:104-106 | a bag of paths has one sorted arrangement |
| FieldMask.FieldMaskFromRequestBody | gateway/runtime/fieldmask.go:24-109 | an empty body gives an empty mask, bad JSON an error, and any other body the sorted paths of the recursive enumeration, or an error or a panic only if the body has it |
| FieldMask.MaskIsDetermined | gateway/runtime/fieldmask.go:24-109 | so whether there is a mask, and which, depends on the body and the message type only, not on any iteration order; so does how it fails, unless the body has both an error and a panic in it |
| FieldMask.BeforeMeans | gateway/runtime/fieldmask.go:104-106 | the sorted order is the dictionary's: a prefix first, else by the first place where two paths differ |
| Schema.GetFieldMeans | gateway/runtime/fieldmask.go:14-21 | a key stands for the field with that proto name, and only if there is none for one with that JSON name |
| Descents.ListDescents | gateway/runtime/fieldmask.go:35-153 | the paths below any place of a body are those of its descents, each once: the key sequences down to a leaf, to a repeated field or to an Any, read as proto names joined with dots, below a Struct or Value as the keys themselves, and for an Any as its key alone |
| Descents.TroubleExactly | gateway/runtime/fieldmask.go:43-75 | an item has an error, or a panic, exactly when some sequence of keys meets one: an unknown field, a member below something that is not a message, an Any without a type, and the panic on an Any that is not an object |
| Descents.MaskIsDescents | gateway/runtime/fieldmask.go:24-109 | so the mask of a body is the sorted list of the paths of its descents; it fails or panics only if some key sequence meets an error or a panic |
| Descents.MaskExactly | gateway/runtime/fieldmask.go:24-109 | a body has a mask exactly when no sequence of its keys meets trouble |
| Independence.PlainSucceeds | gateway/runtime/query.go:67-124 | away from oneofs, whether a key succeeds does not depend on the message |
| Independence.StaysOnTrack | gateway/runtime/query.go:67-124 | away from oneofs, a key changes nothing at any path incomparable with its own, also when it fails half way |
| Independence.StrangersCommute | gateway/runtime/query.go:96-110 | keys whose paths part at fields that share no oneof commute, whatever oneofs those fields are in |
| Independence.LeafIsRefused | gateway/runtime/query.go:105-110 | after any member of a oneof was set, a leaf of that oneof is refused, whatever the message |
| Independence.InOneOneof | gateway/runtime/query.go:96-110 | where two keys meet in a oneof: two leaves are refused alike in both orders, walks through one member are as independent as what they do inside it, and a walk through one member and a key on another depend on the order |
| Independence.OneofOrderShows | gateway/runtime/query.go:96-110 | two concrete keys, `a.x` and `b` in one oneof: refused in one order, accepted in the other |
| Independence.CommuteExactly | gateway/runtime/query.go:67-166 | two keys may change places on every message exactly under a condition on their paths and values, for all schemas, paths and values |
| Independence.IncomparableIsIndependent | gateway/runtime/query.go:67-124 | away from oneofs, keys whose resolved field paths are incomparable meet that condition |
| Independence.EntriesExact | gateway/runtime/query.go:148-166 | two entries for one map field may change places exactly when their keys differ or their values are equal |
| Independence.ListsExact | gateway/runtime/query.go:136-146 | two lists of values for one list field give the old items and both lists in order, so they may change places exactly when their concatenations agree |
| Independence.OrderDoesNotShow | gateway/runtime/query.go:43-59 | over pairwise independent keys, whatever the message starts with, all iteration orders succeed or fail alike and give the same message |
| Independence.TwoKeysShow | gateway/runtime/query.go:43-59 | two keys that are not independent show their order on some message |
| Query.PopulateRepeated | gateway/runtime/query.go:136-146 | the old items are kept and the values are appended, parsed, up to the first that does not parse; it succeeds exactly when all parse |
| Query.PopulateMap | gateway/runtime/query.go:148-166 | exactly two values set one entry; anything else, or a parse error, leaves the map as it was |
| Query.Request.Mutable | gateway/runtime/query.go:101-102 | making a field's message mutable gives what was there or an empty one, and filling it in later fills in that field of that message only |
| Query.Request.PopulatePath | gateway/runtime/query.go:67-124 | the loop down the path leaves the message and the outcome of the recursive reading, also when it stops half way |
| Query.Request.Parse | gateway/runtime/query.go:43-59 | for some iteration order of the keys the message and outcome are those of applying the keys one by one up to the first error |
| OneKey.BracketedReads | gateway/runtime/query.go:45-50 | a key `path[index]` stands for the dot-split of its path, with the index before its own values |
| OneKey.OtherKeyReads | gateway/runtime/query.go:45-50 | any key not of that form stands for its own dot-split and its own values |
| OneKey.PathWrites | gateway/runtime/query.go:67-166 | values written along a path of fields end up at its last field: appended to a list, as one entry of a map, or as the value, everything it held otherwise kept; refused exactly when they do not fit or the field's oneof is set |
| OneKey.MapEntryParsed | gateway/runtime/query.go:43-59 | after parsing the one parameter `path[index]=value` for a map field, its entry under the parsed index is the parsed value, the other entries are there, and away from oneofs nothing off the path has changed |
| OneKey.ValuesParsed | gateway/runtime/query.go:43-59 | after parsing one parameter of any other form its values are at the field its dots lead to, and away from oneofs nothing off the path has changed |
| OneKey.IgnoredKey | gateway/runtime/query.go:52-54 | a parameter that is bound elsewhere, or whose first name is no field of the message, changes nothing and is no error |
| OneKey.OneofKeepsOne | gateway/runtime/query.go:96-124 | a key that succeeds on or through a member of a oneof leaves no other member set |
| Aliases.Registry.ReserveGoPackageAlias | gateway/internal/descriptor/registry.go:419-428 | succeeds exactly when no other package has the alias, and never changes or releases a reservation |
| Aliases.CandidateReads | gateway/internal/descriptor/registry.go:228-228 | the numbered names are the package name, an underscore and the number in canonical decimal |
| Aliases.SearchIsBounded | gateway/internal/descriptor/registry.go:226-232 | a search that has failed i times has met i different reserved names, so i is at most their number |
| Aliases.Registry.SearchAlias | gateway/internal/descriptor/registry.go:226-232 | ends within one try more than there are reservations, with the first numbered name no other package has |
| Aliases.Registry.ReservePackage | gateway/protoc-gen-grpc-gateway/internal/gengateway/generator.go:65-76 | the package gets its own name if it can have it and else the first free numbered one, and all earlier choices stay what they were |
| Aliases.ChosenStays | gateway/internal/descriptor/registry.go:415-428 | a choice remains the right one as reservations are added |
| Aliases.EffectiveNames | gateway/internal/descriptor/registry.go:225-233 | over any history of reservations packages at different paths have different effective names, and a repeated path and name keeps its effective name |
| Camel.Camel | gateway/internal/casing/camel.go:14-51 | the nested loops over one index compute the word-by-word reading |
| Camel.CamelByPosition | gateway/internal/casing/camel.go:14-51 | position by position: a leading underscore becomes `X`, any other before a lower-case letter goes, a lower-case letter at the start or after an underscore or a digit becomes upper-case, and everything else stays |
| Camel.OutputIsCased | gateway/internal/casing/camel.go:25-49 | an output starts neither with an underscore nor in lower case, and no lower-case letter follows an underscore or a digit |
| Camel.OnlyUnderscoresGo | gateway/internal/casing/camel.go:20-33 | up to case, the output is the input without the underscores that stand before lower-case letters, a leading underscore having become an X |
| Camel.FixedPoints | gateway/internal/casing/camel.go:14-51 | the names left unchanged are exactly the outputs, and exactly the cased names |
| Camel.Idempotent | gateway/internal/casing/camel.go:14-51 | applying it twice is applying it once, on all byte strings |
| Digits.DecimalIsCanonical | util/glog/glog.go:602-639 | the digits of a number have no leading zero and read back as the number |
| Digits.DecimalOfValue | util/glog/glog.go:602-639 | a canonical digit string is the only one for its value |
| Digits.PaddedReadsBack | util/glog/glog.go:611-623 | a fixed-width field reads back as the number modulo a power of ten, zero- or blank-padded |
| Digits.PaddedAligns | util/glog/glog.go:611-623 | a positive number that fits stands at the right end of the field in canonical notation, after padding only |
| Header.TwoDigits | util/glog/glog.go:605-609 | writes two places and leaves the rest of the buffer alone |
| Header.NDigits | util/glog/glog.go:614-623 | fills exactly its n places, digits then padding, for any number and pad, and leaves the rest of the buffer alone |
| Header.CopyDown | util/glog/glog.go:638-638 | the overlapping copy moves the old top of the buffer intact |
| Header.SomeDigits | util/glog/glog.go:626-639 | leaves the canonical decimal of any non-negative number at the given offset, returns its length, and keeps what is before |
| Header.Buffer.FormatHeader | util/glog/glog.go:558-598 | whatever the scratch buffer held, the text is the 36-byte header, the file, and the line in canonical decimal in its brackets |
| Header.HeaderIsLaid | util/glog/glog.go:572-590 | the 36 bytes fall into the columns and separators of the header |
| Header.HeaderReadsBack | util/glog/glog.go:572-590 | the columns parse back to severity, year mod 10^4, month, day, time, microseconds and pid mod 10^7 |
| Sinks.FilesNest | util/glog/glog.go:739-762 | the file of a higher severity is the part of a lower one's file that is that severe, in order |
| Sinks.Logger.ConsistentIsClosed | util/glog/glog.go:985-1002 | the open severity files are downward closed |
| Sinks.Logger.CreateFiles | util/glog/glog.go:987-1002 | stopping at the first open file leaves every file up to the severity open, the old ones untouched and the new ones empty |
| Sinks.Logger.WriteDown | util/glog/glog.go:739-760 | the record is added to its severity's file and every lower one, and to no other |
| Sinks.Logger.Output | util/glog/glog.go:714-809 | over every run without a fatal record each severity file holds exactly the unnamed records of at least its severity, in order, and is open exactly when there is one, and each named file its records; a fatal record ends the run, with the trace at the end of each open severity file, or of its own file when it has one, unless stacks are switched off |
| VLevels.StepKeepsInv | util/glog/glog.go:477-493 | every atomic step of every reader and writer keeps the invariant linking cache, filter, filter length, lock and program counters |
| VLevels.FreeMeansExact | util/glog/glog.go:477-493 | in every run, whenever the lock is free, each cached level is that of the first matching filter and the visible filter length is that filter's; no run writes to a missing cache |
| VLevels.CacheOutlivesFilter | util/glog/glog.go:1156-1167 | once a positive filter length was visible the cache exists for good |
| VLevels.AnswersAreJustified | util/glog/glog.go:1143-1170 | `V` answers yes only if the verbosity or the level of the filter in force reaches the request when it decides, and no only if the site is unknown, filtering is off, or that level is too low |
| VLevels.SawLowVerbosity | util/glog/glog_patch.go:10-37 | a call past its first test has seen too low a verbosity at some moment since it began |
| VLevels.SetterLeaves | util/glog/glog.go:477-493 | in every run a setter that finishes leaves what it was asked for: `Level.Set` its verbosity and the filter in force when it read its arguments, `moduleSpec.Set` its filter and the verbosity from then, the visible length being that filter's |
| VLevels.VerbosityHasSource | util/glog/glog.go:477-493 | no moment of a run shows a verbosity other than 0 that no setter stored: nothing stale is visible while a setter is at work |
| VLevels.FirstFilterDecides | util/glog/glog.go:1105-1123 | a call site has the level of the first filter that matches it, 0 when none does |

## Left out

- The template parser and compiler (`httprule`) and the query filter's data structure: templates are given, and the filter is any predicate on field paths.
- HTTP, gRPC, TLS, headers, marshalers, CORS, metrics: the request hook's answer and the outcome of parsing the form are parameters of a request.
- `strings.ToUpper` on the overriding method is modelled for ASCII letters.
- JSON decoding: a body is empty, not JSON, or a tree of objects and leaves; arrays, numbers and strings are all leaves, as the work-lists treat them.
- FieldMask.MaskIsDetermined: for a body with both an error and a panic in it, does not say which comes first; the work-list goes level by level, in map order within a level.
- Message types are taken as protocol buffers allow them: declared names are not empty, and where order matters (`Independence`) distinct within a message.
- Scalar parsing (`parseField`): a function from field, role and text to a value or an error.
- Query.Request.PopulatePath: submessages are places in the root's tree, so two references to one submessage are not represented; the code never keeps one across keys.
- Messages, bodies, names and keys are Dafny strings where bytes do not matter; sorting by code point is sorting by UTF-8 byte.
- Flag text of `-v` and `-vmodule`, the file pattern language (any relation between patterns and call sites), and the per-goroutine effects of `pcs`: the setters take parsed values. The number of filters is taken to fit 32 bits.
- Log file creation, rotation, symlinks, creation errors, flushing, buffer reuse, line statistics, trace locations: a log file is a sequence of records.
- Header.Buffer.FormatHeader: the clock is a parameter, and a line number is a 64-bit int.
- Standalone package aliases and imports with a preset alias do not go through reservation and are not modelled.
- The fully-qualified naming strategy, `FQMN`, enum lookup and other one-line functions would only add easy members.
