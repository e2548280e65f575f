# quiver routing and static serving, modelled in Dafny

quiver is a small TypeScript HTTP library. A `Router` holds route types and consults them in
registration order. Each route type has a `match(ctx)` that returns a handler or `null`. Before
any matcher, the router runs global pipes (filters). It turns every thrown error into a JSON
error response, and answers 404 when nothing matches. There are three route types, each
modelled here with the services they use:

- **PATTERN** (`PatternRouteType.ts`): patterns such as `/users/:id(\d+)/*rest` are parsed
  into tokens. The tokens are inserted into a segment trie. A request walks the trie with a
  fixed priority (static child, then validated parameter child, then wildcard child), and the
  walk backtracks parameter bindings.
- **PATH** (`PathRouteType.ts`, and the newer version in the built bundle `dist/es/index.js`):
  exact `"METHOD PATH"` keys kept sorted and found by binary search. The bundle version also
  normalises paths, falls back from HEAD to GET, and answers 405 with an `Allow` header
  (sections 15.5.6 and 10.2.1 of RFC 9110).
- **STATIC** (`StaticRouteType.ts`, and the bundle's responder): serves files listed by a
  `StaticIndex` built from a walk of the directory tree. The responder implements:
  - weak entity tags and `If-None-Match` (sections 8.8.3 and 13.1.2 of RFC 9110);
  - byte ranges, with 206 and 416 answers (sections 14.1.2, 14.4 and 15.5.17 of RFC 9110);
  - in the bundle, precompressed `.br`/`.gz` siblings chosen by `Accept-Encoding` (section
    12.5.3 of RFC 9110).

The model is purely functional:

- Requests, rules, tries, tables and response plans are datatypes.
- A pipe or handler is a function from a context to a `Run`: the new context, the list of
  calls it made on the response object (`Op`), and what it threw, if anything.
- Replaying those calls (`Response.Replay`) gives the observable response. This is what makes
  the HEAD-wrapper finding below expressible.
- The JavaScript the core calls but does not define is passed in as parameters:
  - `decodeURIComponent`, `new RegExp` (whether a source compiles), `RegExp.test` and user
    validator functions;
  - `path.join` and `extname`;
  - `Number()` on q-values;
  - `fs.stat` and whether a sibling exists.

Modules follow the source layout:

| module | source |
|---|---|
| `HttpErrors` | `HttpException.ts` |
| `Compose` | `compose.ts` |
| `Router` | `Router.ts` |
| `Response` | the Node response calls (`statusCode`, `setHeader`, `write`, `end`) the handlers make |
| `Paths` | `normalizePath` and the bundle's `k` |
| `Strings` | the JavaScript string built-ins the core relies on |
| `PatternParse`, `PatternTrie`, `PatternMatch` | PATTERN parsing, insertion and matching |
| `PathRoute`, `PathRouteDist` | PATH in the source and in the bundle |
| `StaticIndex`, `StaticIndexDist` | the index in the source and in the bundle |
| `StaticResponder`, `StaticResponderDist` | STATIC in the source and in the bundle |

Where the source tree and the bundle differ, both are modelled under separate names.

Two behaviours of the code are worth stating up front:

- The PATH matcher has no duplicate check: the newest handler wins (`PathRoute.ReAddWins`). Only the
  PATTERN trie throws `Duplicate handler for method <m>`.
- The bundle's HEAD fallback replaces only `res.end`. The wrapper passes `res.write` calls through,
  and Node itself sends no body for HEAD (`PathRouteDist.HeadServesGet`).

## Model

| member | source | states |
|---|---|---|
| `HttpErrors.NewHttpException` | src/core/HttpException.ts:1-10 | The status code is stored as given. A missing message becomes `Http Error`, a missing `expose` becomes `statusCode < 500`, and missing headers become none. Arguments that are given are kept. |
| `Compose.Compose` | src/core/compose.ts:3-16 | With no pipes, or an empty list, the composed handler is the handler itself. |
| `Compose.RunPipesAppend` | src/core/compose.ts:11-13 | Running pipes `a + b` is running `a` and then, unless `a` threw, `b` on the context `a` left. The response calls of both accumulate in order. |
| `Compose.HandlerRunsIffPipesSucceed` | src/core/compose.ts:10-15 | When every pipe succeeds, the handler runs on the context the pipes left, after their calls. When one throws, the handler is never consulted: any other handler gives the same run. |
| `Compose.FirstFailureStops` | src/core/compose.ts:11-13 | If pipe `k` is the first to throw, the composed run is the run of pipes `0..k` alone, whatever the later pipes and the handler are. Its error propagates. |
| `Router.NewRouter` | src/core/Router.ts:30-33 | A new router has no types, no order and no global pipes. |
| `Router.UseType` | src/core/Router.ts:36-42 | `useType` registers the type under its name, replacing an earlier one of that name. It appends the name to the consultation order and leaves the pipes alone. |
| `Router.UseGlobalPipes` | src/core/Router.ts:44-47 | The new pipes come after the existing ones, which are unchanged. |
| `Router.AddRule` | src/core/Router.ts:49-56 | A rule for an unregistered type throws `Route type "<type>" is not registered` and changes nothing. Otherwise the rule goes to that type only: its state is the type's own `addRule` result, even when that throws, and the error propagates. |
| `Router.AddRules` | src/core/Router.ts:58-61 | Adding rules never changes the consultation order or the global pipes, and never registers a type. |
| `Router.AddRulesFirstError` | src/core/Router.ts:58-61 | The rules are added in order. The first rule that throws ends the loop with its error, and later rules are not added. |
| `Router.MakeCtx` | src/core/Router.ts:63-67 | A `factory` takes precedence over a `class`. With neither, the default context is built. |
| `Router.FirstMatch` | src/core/Router.ts:80-86 | The index found is the first route type in registration order whose `match` does not give null: it returns a handler or throws. Every earlier one gave null. When there is none, every type gave null. |
| `Router.Handle` | src/core/Router.ts:70-98 | Nothing escapes the request handler: every thrown error is caught. |
| `Router.DispatchFirstMatch` | src/core/Router.ts:80-90 | With no match, the 404 calls are made. Otherwise exactly the first deciding type counts: its handler runs on the context its `match` prepared, or its `match` error ends the loop. Later types are never consulted. |
| `Router.PipeErrorSkipsRouting` | src/core/Router.ts:75-97 | A throwing global pipe leads straight to the error response. No route type is consulted, so any registry with the same pipes behaves the same. |
| `Router.HandleOutcome` | src/core/Router.ts:75-97 | After the pipes succeed: with no match, the 404 calls follow the pipes' calls. Otherwise the first deciding type's handler calls follow, or nothing when its `match` threw, plus the error response when there is an error. |
| `Router.MatchThrowAnswersError` | src/core/Router.ts:79-96 | A `match` that throws, when every earlier type gave null, gets the pipes' calls followed by the error response for that error. No handler runs. |
| `Router.NotFoundResponse` | src/core/Router.ts:88-90 | With no match, the response gets status 404, the JSON content type and the body `{"error":"Not Found"}`, and is finished. Other headers are kept. |
| `Router.HeaderOpsReplay` | src/core/Router.ts:94 | Copying an error's headers gives each name the last value the error lists for it and leaves other headers as they were. Status and body do not change. |
| `Router.ErrorResponse` | src/core/Router.ts:91-97 | The error response has status `statusCode`, or 500 for a plain error. It has the error's headers, then the JSON content type. Its body is the message when `expose` is set and `Internal Server Error` otherwise. The response is finished. |
| `Response.ReplayIgnoresEnd` | dist/es/index.js:255 | Status and headers do not depend on whether `end` was called or replaced. This is why the HEAD wrapper keeps the GET handler's status. |
| `Response.PatchedReplay` | dist/es/index.js:255 | While `res.end` is replaced by a no-op, no call finishes the response and `end` stays replaced. An unfinished response's body grows by exactly the chunks passed to `res.write`; a finished one's does not grow. |
| `Paths.NormalizePath` | src/route-types/PatternRouteType.ts:46-51 | The result is never empty. `""` and `/` become `/`, and a path with a trailing `/` loses exactly that one `/`. Otherwise the path is unchanged. |
| `Paths.StripTrailingSlashIsNormalizePath` | src/route-types/PathRouteType.ts:42 | The source PATH matcher's `replace(/\/$/, '') \|\| '/'` agrees with `normalizePath` and the bundle's `k` on every input. |
| `Strings.Split` | src/route-types/PatternRouteType.ts:66 | `split` on one character gives at least one piece, and no piece contains the separator. |
| `Strings.JoinSplit` | src/route-types/PatternRouteType.ts:66 | Joining the pieces of a split with the same separator gives the string back. |
| `Strings.SplitJoin` | src/route-types/PatternRouteType.ts:266 | Splitting a join of separator-free pieces gives the pieces back. |
| `Strings.LessTransitive` | src/route-types/PathRouteType.ts:53 | JavaScript's string `<` is transitive. |
| `Strings.LessTotal` | src/route-types/PathRouteType.ts:53 | JavaScript's string `<` is total: any two strings are equal or ordered one way. |
| `Strings.Upper` | dist/es/index.js:234 | `toUpperCase` keeps the length and maps each character. |
| `Strings.Lower` | dist/es/index.js:456 | `toLowerCase` keeps the length and maps each character. |
| `Strings.TrimStart` | dist/es/index.js:470 | The result is a suffix of the input that starts with a non-space. |
| `Strings.TrimEnd` | dist/es/index.js:470 | The result is a prefix of the input that ends with a non-space. |
| `Strings.NatToString` | src/route-types/StaticRouteType.ts:83 | `String(n)` is a non-empty run of decimal digits. |
| `Strings.DigitPrefix` | src/route-types/StaticRouteType.ts:62 | The result is the longest run of digits at the head of the text. |
| `Strings.ParseInt` | src/route-types/StaticRouteType.ts:62-65 | `parseInt` is NaN exactly when no digit follows the leading space and optional sign. |
| `Strings.NatToStringValue` | src/route-types/StaticRouteType.ts:71 | The digits `String(n)` prints have the value `n`. |
| `Strings.ParseIntNatToString` | src/route-types/StaticRouteType.ts:62-63 | `parseInt(String(n), 10) == n` for every natural `n`, with exact integers (see Left out for doubles). |
| `Strings.NatToStringInjective` | src/route-types/StaticRouteType.ts:51 | Different numbers print differently. |
| `PatternParse.ToValidator` | src/route-types/PatternRouteType.ts:25-39 | No spec gives no validator. A function is used as it is, and a RegExp becomes its `test`. A built-in validator comes only from that built-in's name. |
| `PatternParse.ParseParamSegment` | src/route-types/PatternRouteType.ts:71-79 | A recognised `:` segment is rendered back exactly from its name and inline regex. The name is an identifier, and the regex text is non-empty without line breaks. |
| `PatternParse.ParamSegmentRoundTrip` | src/route-types/PatternRouteType.ts:72 | Every segment of the shape `:[A-Za-z_][A-Za-z0-9_]*` with an optional `(regex)` is recognised with exactly that name and regex. Together with the contract above, this is the exact grammar. |
| `PatternParse.ParamValidator` | src/route-types/PatternRouteType.ts:80-86 | An inline regex, anchored as `^(?:…)$`, wins over a `constraints[name]` entry, which wins over no validator. It fails exactly when the anchored regex does not compile, with the compiler's `SyntaxError` message. |
| `PatternParse.ParseSegments` | src/route-types/PatternRouteType.ts:68-99 | A successful parse gives one token per segment. Which inputs succeed, and what they give, is stated by the three lemmas below. |
| `PatternParse.ParsePattern` | src/route-types/PatternRouteType.ts:61-66 | `""` and `/` give no tokens. Any other pattern is normalised first and yields one token per `/`-separated segment. |
| `PatternParse.ParseJoined` | src/route-types/PatternRouteType.ts:61-66 | A pattern written as `/` followed by slash-free segments joined with `/`, the last one non-empty, parses exactly as those segments do. |
| `PatternParse.ParseSegmentsOkIff` | src/route-types/PatternRouteType.ts:69-98 | Parsing succeeds exactly when every `:` segment matches the parameter grammar with an inline regex that compiles, and every `*` segment is the last one. |
| `PatternParse.ParseSegmentsSpell` | src/route-types/PatternRouteType.ts:69-98 | On success each token spells its segment. A static token holds the segment verbatim, and a parameter token holds the name in the segment. A wildcard is named by the text after `*`, or `wild` for a bare `*`. |
| `PatternParse.SegmentSpells` | src/route-types/PatternRouteType.ts:70-97 | Each segment that parses is spelled by its token. |
| `PatternParse.ParseSegmentsFirstError` | src/route-types/PatternRouteType.ts:73-92 | On failure the error thrown is that of the first malformed segment: `Invalid param segment: <seg>`, the `SyntaxError` of its inline regex, or `Wildcard must be the last segment`. |
| `PatternParse.WildcardOnlyLast` | src/route-types/PatternRouteType.ts:89-93 | A successful parse has wildcards only in last position. |
| `PatternTrie.SetHandlers` | src/route-types/PatternRouteType.ts:137-147 | `setHandler` succeeds exactly when no method is already present, or repeated. It then adds every method with the handler. |
| `PatternTrie.SetHandlersError` | src/route-types/PatternRouteType.ts:141-144 | A failure names the first taken method, as `Duplicate handler for method <m>`. The methods before it stay added. |
| `PatternTrie.EmptyHasNoHandlers` | src/route-types/PatternRouteType.ts:164 | A new trie has no handler anywhere. |
| `PatternTrie.Insert` | src/route-types/PatternRouteType.ts:122-135 | An existing parameter or wildcard child is reused and keeps the name and validator of the rule that created it. A missing one is created from the token. |
| `PatternTrie.InsertOk` | src/route-types/PatternRouteType.ts:174-188 | Insertion succeeds exactly when no wildcard comes early and no method is taken at the node the tokens lead to. An early wildcard is reported as `Wildcard must be the last segment`. |
| `PatternTrie.InsertHandlers` | src/route-types/PatternRouteType.ts:174-188 | A successful insert adds the methods at the tokens' node and leaves the handlers of every other node unchanged. |
| `PatternTrie.RuleMethods` | src/route-types/PatternRouteType.ts:167-169 | A rule's methods are all seven when it names none. |
| `PatternTrie.AddRule` | src/route-types/PatternRouteType.ts:166-171 | A pattern that does not parse, including one whose inline regex does not compile, throws its parse error and leaves the trie untouched. |
| `PatternTrie.AddRuleSpec` | src/route-types/PatternRouteType.ts:166-189 | `addRule` succeeds exactly when the rule's methods are free at the rule's node. It then adds them there and changes no other node's handlers. |
| `PatternTrie.AddRuleFinds` | src/route-types/PatternRouteType.ts:149-155 | After `addRule`, each of the rule's methods finds the rule's handler at the rule's node. So does HEAD, through GET, when only GET was given. |
| `PatternTrie.AddRulesCommuteOk` | src/route-types/PatternRouteType.ts:166-189 | If two rules can be added one after the other, they can also be added in the other order. |
| `PatternTrie.AddRulesCommute` | src/route-types/PatternRouteType.ts:166-189 | Either order of adding two rules leaves the same handler set at every node. Parameter and wildcard edges may differ (see below). |
| `PatternTrie.ParseOneParam` | src/route-types/PatternRouteType.ts:61-86 | The pattern `/:name` parses to one parameter token with the validator the constraints give that name. |
| `PatternTrie.RootParamEdge` | src/route-types/PatternRouteType.ts:122-135 | A one-parameter pattern creates the root's parameter edge with its own name and validator when there is none. Otherwise the existing edge keeps its name and validator. |
| `PatternTrie.RootParamsAdd` | src/route-types/PatternRouteType.ts:166-189 | Two one-parameter rules with disjoint methods can be added one after the other to an empty trie. |
| `PatternTrie.OrderChangesParamEdge` | src/route-types/PatternRouteType.ts:122-135 | Registration order matters for matching: `/:id` (GET, `int`) then `/:name` (POST) leaves an edge `id` validated as `int`. The other order leaves an unvalidated edge `name`. |
| `PatternMatch.DecodeAll` | src/route-types/PatternRouteType.ts:261-267 | The remaining segments decode exactly when each one does. The result is the decoded segments, in order. |
| `PatternMatch.GoSpec` | src/route-types/PatternRouteType.ts:219-280 | The walk finds a handler exactly when some route through the trie reaches one. The handler found is that of the highest-priority route: static before parameter before wildcard at every node. |
| `PatternMatch.RouteLeTotal` | src/route-types/PatternRouteType.ts:234-277 | Any two routes are comparable in priority, so a highest-priority route is well defined. |
| `PatternMatch.UndecodableBlocks` | src/route-types/PatternRouteType.ts:229-232 | A segment `decodeURIComponent` rejects rules out every route that reaches it. |
| `PatternMatch.GoParams` | src/route-types/PatternRouteType.ts:244-277 | With distinct parameter and wildcard names along every trie path (`NamesFresh`): after a failed subtree, the shared `params` record is as it was before, so bindings are undone; after success, it holds exactly the bindings of the chosen route. Without distinct names this fails (`PatternMatch.LostBinding`). |
| `PatternMatch.WildParams` | src/route-types/PatternRouteType.ts:259-277 | The wildcard child binds its name to the remaining decoded segments joined by `/` when it has a handler for the method, which is then that of the one-step wildcard route. Otherwise the parameters are left as they were. |
| `PatternMatch.MatchRoot` | src/route-types/PatternRouteType.ts:195-213 | `/` is served by the root handler, with HEAD falling back to GET. Otherwise it is served by the root wildcard's handler with the wildcard bound to `""`. Otherwise nothing matches. |
| `PatternMatch.MatchPath` | src/route-types/PatternRouteType.ts:215-292 | Any other path matches exactly when some route reaches a handler for the request method, with no 405. The handler matched is the highest-priority route's. |
| `PatternMatch.MatchParams` | src/route-types/PatternRouteType.ts:282-292 | With distinct names along every trie path, the returned handler sets `ctx.params` to exactly the chosen route's bindings. When the route binds nothing, `params` stays null and the wrapper never assigns `ctx.params`; the lemma reads that as the empty record. |
| `PatternMatch.LostBinding` | src/route-types/PatternRouteType.ts:244-277 | The rules `/:x/a`, `/:y/:x/b` and `/:z/*w` are added without error, and their trie repeats the name `x` on one path. For `GET /1/2/c` the chosen route binds `x` to `1` and `w` to `2/c`, but the failed inner subtree's `delete` removes `x`, so `ctx.params` receives only `w`. |
| `PatternMatch.MatchUndecodable` | src/route-types/PatternRouteType.ts:229-232 | A path with an undecodable segment matches nothing. |
| `PathRoute.LowerBound` | src/route-types/PathRouteType.ts:49-60 | On a sorted array, the result is the least index whose key is not below the search key: every key before it is below, none after it is. |
| `PathRoute.Lookup` | src/route-types/PathRouteType.ts:43-46 | A key is found exactly when it is in the table. |
| `PathRoute.Insert` | src/route-types/PathRouteType.ts:33-36 | Inserting at the lower bound keeps the keys sorted and the handlers parallel, and adds exactly that key. The new key finds the new handler, and every other key keeps its handler. |
| `PathRoute.InsertSorted` | src/route-types/PathRouteType.ts:34-35 | A key spliced in at its lower bound keeps the keys sorted. |
| `PathRoute.LookupShift` | src/route-types/PathRouteType.ts:34-36 | Splicing one entry in does not change what any other key finds. |
| `PathRoute.RuleMethods` | src/route-types/PathRouteType.ts:30 | A rule's methods are its own when it names some, and all seven otherwise. |
| `PathRoute.KeyInjective` | src/route-types/PathRouteType.ts:33 | The key `"METHOD PATH"` determines its method and its path, since methods contain no space. |
| `PathRoute.AddRule` | src/route-types/PathRouteType.ts:29-38 | One key per method is added, with the rule path taken verbatim. Every method of the rule finds the rule's handler, all other keys keep theirs, and the table stays sorted and parallel. |
| `PathRoute.Match` | src/route-types/PathRouteType.ts:40-47 | The handler is found exactly when the key from the upper-cased method (GET when missing) and the path without one trailing `/` is in the table. There is no HEAD fallback and no 405. |
| `PathRoute.ReAddWins` | src/route-types/PathRouteType.ts:29-38 | Re-adding a method and path already present inserts a second entry, and the newest handler is the one matched. |
| `PathRouteDist.UpperAll` | dist/es/index.js:234 | Every method is upper-cased, in order. |
| `PathRouteDist.AddAll` | dist/es/index.js:239-242 | Adding to a JavaScript `Set` keeps the old members first, adds the new ones, and repeats nothing. |
| `PathRouteDist.AddRule` | dist/es/index.js:233-243 | Keys use the normalised path and upper-cased methods. Each method finds the handler composed with the rule's pipes, and other keys and paths are unaffected. The path's method set gains the rule's methods. |
| `PathRouteDist.Rank` | dist/es/index.js:225 | A method's rank is its position in GET, HEAD, POST, PUT, PATCH, DELETE, OPTIONS. |
| `PathRouteDist.KeepMembers` | dist/es/index.js:263 | Filtering the canonical list keeps exactly the allowed methods. |
| `PathRouteDist.KeepOrdered` | dist/es/index.js:263 | Filtering keeps the canonical order. |
| `PathRouteDist.AllowSet` | dist/es/index.js:261-262 | The allowed methods are the registered ones, plus HEAD when GET is registered. |
| `PathRouteDist.AllowListSpec` | dist/es/index.js:261-263 | When some allowed method is canonical, `Allow` lists exactly the allowed canonical methods, once each, in canonical order. Otherwise it lists the registered methods in registration order. |
| `PathRouteDist.CanonicalOrdered` | dist/es/index.js:225 | The canonical list is strictly ordered by rank. |
| `PathRouteDist.CanonicalOrderDistinct` | dist/es/index.js:263 | A list in canonical order repeats no method. |
| `PathRouteDist.AllowGetPost` | dist/es/index.js:259-267 | A path with GET and POST handlers announces `GET, HEAD, POST`. |
| `PathRouteDist.Resolve` | dist/es/index.js:244-268 | An exact key is served. Otherwise HEAD falls back to a GET key. Otherwise a path with registered methods gets 405 with the `Allow` list. Anything else is no match. Each outcome is stated as an if-and-only-if. |
| `PathRouteDist.Match` | dist/es/index.js:244-277 | The binary searches decide exactly as `Resolve`. |
| `PathRouteDist.RegisteredIsServed` | dist/es/index.js:233-248 | A method registered for a path is served there, whatever trailing `/` and letter case the request uses. |
| `PathRouteDist.KnownPathAnswers` | dist/es/index.js:244-268 | A registered path never gives "no match". |
| `PathRouteDist.Handler` | dist/es/index.js:244-268 | The handler returned is null exactly for "no match", and an exact key returns its own handler. A HEAD fallback gets the bundle's wrapper. |
| `PathRouteDist.HandlerCorrected` | dist/es/index.js:244-268 | The same choice with `res.end` restored in all cases: null exactly for "no match", and an exact key returns its own handler. |
| `PathRouteDist.HandlersAgreeWithoutError` | dist/es/index.js:244-268 | The bundle's handler and the corrected one are null together. They give the same run unless a HEAD request falls back to a GET handler that throws. |
| `PathRouteDist.NotAllowedResponse` | dist/es/index.js:264-266 | The 405 handler makes the router answer 405, with the `Allow` header and the exposed message `Method Not Allowed`. |
| `PathRouteDist.WrappersAgreeWithoutError` | dist/es/index.js:253-256 | When the GET handler returns normally, the bundle's HEAD wrapper and the corrected one behave the same. |
| `PathRouteDist.HeadServesGet` | dist/es/index.js:249-257 | When the GET handler returns normally, HEAD through it keeps its status and headers and finishes the response. The wrapper passes `res.write` calls through (Node itself sends no body for HEAD), and what went to `res.end` is dropped. |
| `PathRouteDist.HeadAsWrittenNeverEnds` | dist/es/index.js:253-256 | With the bundle's wrapper, a throwing GET handler leaves `res.end` replaced, so the router's error response never finishes the response. |
| `PathRouteDist.HeadAsWrittenHangs` | dist/es/index.js:253-256 | A concrete case: a GET handler that throws before writing, asked with HEAD, leaves the response unfinished. |
| `PathRouteDist.HeadWrapErrorEnds` | dist/es/index.js:253-256 | With `res.end` restored in all cases, the error response finishes the response with the error's status and JSON body. |
| `StaticIndex.Filter` | src/services/StaticIndex.ts:41-43 | The files kept are exactly those with no hidden name on their path. |
| `StaticIndex.FoldLookup` | src/services/StaticIndex.ts:49-50 | After entering files, a key is present exactly when it was already present or some file has it. It maps to the last such file's absolute path, and keeps its old value when no file has it. |
| `StaticIndex.WalkIsFold` | src/services/StaticIndex.ts:37-53 | The walk enters exactly the visible files, depth first in directory order. Skipping a hidden directory is the same as dropping every file below it. |
| `StaticIndex.HiddenContributesNothing` | src/services/StaticIndex.ts:41-43 | Nothing below a hidden name is visible. |
| `StaticIndex.NewIndex` | src/services/StaticIndex.ts:18-21 | The base is `urlBase` with one trailing `/` removed, so `/` becomes `""`. The map starts empty. |
| `StaticIndex.Slashes` | src/services/StaticIndex.ts:49 | Every backslash becomes `/`, and nothing else changes. |
| `StaticIndex.Rebuild` | src/services/StaticIndex.ts:35-57 | When every `readdir` succeeds, the new map holds every visible file under `base + "/" + rel`, the last one winning, whatever the old map held. |
| `StaticIndex.Lookup` | src/services/StaticIndex.ts:59-61 | A lookup reads the current map and changes nothing. |
| `StaticIndex.ResolveUrl` | src/services/StaticIndex.ts:63-74 | A path resolves only if it is the base or lies below it. It resolves only to its own map entry, and only when that entry is non-empty and starts with the root. |
| `StaticIndex.ResolveAfterRebuild` | src/services/StaticIndex.ts:35-74 | After a rebuild, a pathname resolves exactly when it lies under the base and some visible file has it as key, with a path that starts with the root. It resolves to the last such file. |
| `StaticIndex.RebuildReplaces` | src/services/StaticIndex.ts:35-57 | When every `readdir` succeeds, the result of a rebuild does not depend on the map it replaces. |
| `StaticIndexDist.NewDistIndex` | dist/es/index.js:111-113 | `/` stays `/` and any other base loses one trailing `/`. The index files default to `index.html` and `index.htm`. |
| `StaticIndexDist.FirstIndexFile` | dist/es/index.js:187-193 | The index file found is the first listed name whose key exists. There is none exactly when no name's key exists. |
| `StaticIndexDist.IndexAlias` | dist/es/index.js:187-193 | The directory key gets the first found index file's path. With none found, the map is unchanged. |
| `StaticIndexDist.RebuildDist` | dist/es/index.js:129-198 | Only the map changes: the root, base, index file names and `.well-known` setting are kept. |
| `StaticIndexDist.RebuildDistAsWritten` | dist/es/index.js:129-198 | The bundle's rebuild also changes only the map. |
| `StaticIndexDist.WalkDistWithoutIndexFiles` | dist/es/index.js:143-186 | With no index file names, the bundle's walk is the source walk under the `.well-known` rule. |
| `StaticIndexDist.RebuildDistFiles` | dist/es/index.js:129-186 | For any tree and any index file names, the map agrees with the source walk under the `.well-known` rule on every key other than a directory key: each visible file under `s/rel`, the last one winning, and nothing else. |
| `StaticIndexDist.RebuildDistAsWrittenFiles` | dist/es/index.js:129-186 | The bundle's rebuild agrees with the same map outside its own directory keys. |
| `StaticIndexDist.RebuildDistAliases` | dist/es/index.js:143-193 | On listings with distinct plain names, every directory the walk refreshes ends with its key holding what its first index file's key holds, whenever some index file is present. |
| `StaticIndexDist.WellKnownRule` | dist/es/index.js:145 | `.well-known` is hidden exactly when it is not allowed. Every other dot-name is hidden. |
| `StaticIndexDist.PlainNameVisible` | dist/es/index.js:145 | A name that does not start with `.` is never hidden. |
| `StaticIndexDist.ProbeFindsIndexFile` | dist/es/index.js:188 | With the corrected directory key, the probe for an index file is exactly that file's key, at the root and in every sub-directory. |
| `StaticIndexDist.ProbeAsWrittenMisses` | dist/es/index.js:188 | As written, the probe in a sub-directory never equals the index file's key. |
| `StaticIndexDist.AliasAsWrittenMissing` | dist/es/index.js:187-193 | As written, a site with `docs/index.html` under `/static` indexes `/static/docs/index.html` but never `/static/docs`. |
| `StaticIndexDist.AliasCorrected` | dist/es/index.js:187-193 | Corrected, `/static/docs` maps to `docs/index.html`. |
| `StaticIndexDist.ResolveUrlDist` | dist/es/index.js:202-213 | After one trailing `/` is removed, a path resolves only if it is non-empty, starts with `/` and has no `..` segment. A base other than `/` must contain it, and it resolves only to its map entry, which must be non-empty and start with the root. Conversely, every path meeting all of these conditions resolves to its entry. |
| `StaticIndexDist.ResolveAgreesWithSource` | dist/es/index.js:202-213 | For a base other than `/` and a pathname that starts with `/` and has no trailing `/` and no `..` segment, the bundle resolves as the source version does over the same map. |
| `StaticIndexDist.TraversalRefused` | dist/es/index.js:204 | A path without a trailing `/` that has a `..` segment never resolves, whatever the index holds. |
| `StaticResponder.TableMapLastWins` | src/route-types/StaticRouteType.ts:8-13 | An object literal maps each key to its last entry's value. |
| `StaticResponder.Match` | src/route-types/StaticRouteType.ts:32-37 | `match` gives a file exactly for GET or HEAD when the index resolves the path. That file is the path's entry and lies under the root. |
| `StaticResponder.WeakETagInjective` | src/route-types/StaticRouteType.ts:51 | Files whose size or modification time differ get different weak tags. |
| `StaticResponder.RangeTexts` | src/route-types/StaticRouteType.ts:61 | The start and end texts are the first two `-`-separated pieces, so neither contains `-`. |
| `StaticResponder.RangeOf` | src/route-types/StaticRouteType.ts:59-66 | A Range header counts only when it starts with `bytes=`. An accepted span starts within the file and is not reversed. |
| `StaticResponder.RangeOfSpec` | src/route-types/StaticRouteType.ts:60-66 | A `bytes=` header is decided on the bounds read from the rest. A missing or NaN start is 0, and a missing or NaN end is `size-1`. |
| `StaticResponder.RangeTextsOf` | src/route-types/StaticRouteType.ts:61 | The texts around a single `-` are read back as they were written. |
| `StaticResponder.BoundOfNumeral` | src/route-types/StaticRouteType.ts:62-63 | A numeral is read back as its number. |
| `StaticResponder.RangeExplicit` | src/route-types/StaticRouteType.ts:59-71 | `bytes=a-b` with `a <= b` is the span `a..b` when `a` lies inside the file, and is refused otherwise. |
| `StaticResponder.RangeSuffixReadAsPrefix` | src/route-types/StaticRouteType.ts:61-63 | `bytes=-n` is read as `0..n`, not as the suffix range of section 14.1.2 of RFC 9110. |
| `StaticResponder.BaseHeaders` | src/route-types/StaticRouteType.ts:44-52 | Every answer carries `nosniff`, `Accept-Ranges: bytes`, `Last-Modified` and the weak ETag. The content type is the table's type for the lower-cased extension, or `application/octet-stream`. |
| `StaticResponder.Deliver` | src/route-types/StaticRouteType.ts:59-90 | Status 416 (with `bytes */size` and no body) or 206 exactly as the range is refused or accepted. A 206 has `bytes s-e/size`, length `e-s+1` and the span. Otherwise 200 with the full length and file. HEAD never gets a body. |
| `StaticResponder.Respond` | src/route-types/StaticRouteType.ts:39-91 | 304, with the base headers and no body, exactly when `If-None-Match` equals the tag, checked before Range. Every answer carries the base headers. Otherwise the range decision above. |
| `StaticResponder.HeadLikeGet` | src/route-types/StaticRouteType.ts:73-87 | HEAD is answered exactly like GET, less the body. |
| `StaticResponder.ExplicitRangeServed` | src/route-types/StaticRouteType.ts:71-80 | A span inside the file gets 206, `bytes a-b/size`, length `b-a+1` and exactly those bytes. |
| `StaticResponder.RangePastEndRefused` | src/route-types/StaticRouteType.ts:66-70 | A span starting at or past the end gets 416, `bytes */size` and no body. |
| `StaticResponder.RangeEndNotClamped` | src/route-types/StaticRouteType.ts:63-72 | `bytes=0-n` past the end still announces `n+1` bytes. Section 14.1.2 of RFC 9110 would stop the span at the last byte. |
| `StaticResponderDist.TypeKey` | dist/es/index.js:456 | A configured extension is keyed lower-case with a leading `.`. |
| `StaticResponderDist.NormalizeTypesLastWins` | dist/es/index.js:451-460 | The keys are exactly the configured extensions' keys, and each holds the value of the last entry with that key. |
| `StaticResponderDist.NewConfig` | dist/es/index.js:503-515 | Configured types override the built-in table, and the others are kept. The default type is `application/octet-stream`, the charset `utf-8`, and precompression is off by default, preferring `br`, `gzip`, probing sibling files and setting `Vary`. |
| `StaticResponderDist.WithCharsetIdempotent` | dist/es/index.js:461-463 | The charset parameter is added at most once. A textual type then declares a charset. |
| `StaticResponderDist.TableEntriesKept` | dist/es/index.js:434-450 | No type in the built-in table is changed by the charset rule. |
| `StaticResponderDist.TableKeepsCharset` | dist/es/index.js:537-538 | Neither a table type nor the octet-stream default is changed by the charset rule. |
| `StaticResponderDist.ParamsWeight` | dist/es/index.js:476-483 | The last `q` parameter with a numeric value decides the weight. Without one the weight stays as it was. |
| `StaticResponderDist.ItemEntry` | dist/es/index.js:469-484 | An item gives an entry exactly when its trimmed, lower-cased name is non-empty. The weight is that of the last `q` parameter with a numeric value, and 1 without one. |
| `StaticResponderDist.Weights` | dist/es/index.js:464-487 | An absent or empty header gives no weights. Otherwise exactly the named codings are weighed, each with the weight of the last item naming it. |
| `StaticResponderDist.WeightsNames` | dist/es/index.js:468-475 | The codings weighed are the non-empty names the comma-separated items give. |
| `StaticResponderDist.Sibling` | dist/es/index.js:488-501 | The coding chosen is the first preferred one whose weight is neither 0 nor absent and whose sibling exists. An absent weight is allowed only when the header names nothing. The sibling is `.br` for `br` and `.gz` otherwise. There is none exactly when no coding is on offer. |
| `StaticResponderDist.EncodedETagDiffers` | dist/es/index.js:546 | A compressed variant's tag never equals an uncompressed file's tag. |
| `StaticResponderDist.MatchDist` | dist/es/index.js:524-536 | `match` gives a file exactly for GET or HEAD, when the raw URL's decoded path has no `..` segment and the index resolves the pathname. |
| `StaticResponderDist.EncodedTraversalRefused` | dist/es/index.js:527-534 | A raw URL whose decoded path has a `..` segment is refused, whatever the index holds. |
| `StaticResponderDist.Chosen` | dist/es/index.js:540-545 | A variant is served only with precompression and sibling probing on, when the header weighs some coding. It is the first preferred coding on offer. |
| `StaticResponderDist.LeadHeaders` | dist/es/index.js:537-545 | Before the conditional check, the answer carries `nosniff`, `Last-Modified` and the charset-completed content type. It adds `Vary` when that is configured and `Content-Encoding` for a variant, and nothing else. |
| `StaticResponderDist.TagOfNonEmpty` | dist/es/index.js:548-549 | A tag is never empty, so the test for a non-empty `If-None-Match` adds nothing. |
| `StaticResponderDist.Ship` | dist/es/index.js:553-577 | A compressed variant without ranges allowed gets `Accept-Ranges: none`, 200, its full length and body, with Range ignored. Otherwise `Accept-Ranges: bytes` and the range decision. |
| `StaticResponderDist.Serve` | dist/es/index.js:546-577 | The tag is always set. 304, with nothing else added, exactly when `If-None-Match` equals it. Otherwise the shipping decision. |
| `StaticResponderDist.RespondDist` | dist/es/index.js:536-578 | Without precompression there is no `Content-Encoding` and the plain weak tag is used. With a variant, the tag carries its coding and the variant's metadata, and the coding is the first preferred one on offer. |
| `StaticResponderDist.DistAgreesWithSource` | dist/es/index.js:536-578 | With precompression off and the built-in table, the bundle answers as the source version, except that its 304 lacks `Accept-Ranges`. |

## Left out

- File system I/O: `stat`, `readdir`, `lstat`, `realpath` and `createReadStream`. File metadata, sibling existence and the directory tree are inputs, and stream errors are not modelled.
- Symbolic links: a link is never followed, and canonical-path cycle detection is absent. The source walk skips links, as `Dirent.isFile`/`isDirectory` are false for them; following them needs a file system model.
- `maxDepth`/`maxFiles` and logging in the bundle's `rebuild`, and the rebuild timer (`start`/`stop`): these are scheduling and logging.
- Async ordering and concurrency: every pipe and handler runs to completion before the next step.
- Request bodies (`bodyRaw`, `bodyJson`), `new URL` and `req.headers.host`: the pathname is an input.
- `decodeURIComponent`, `RegExp.test` and user validators: these are parameters (the `Foreign` record). The built-in `int`, `uuid`, `hex` and `alpha` validators are character-class predicates.
- `PatternMatch.Match`: validators and `decodeURIComponent` are total functions, so a validator that throws during `match` is not modelled inside PATTERN. At the router level a throwing `match` is modelled (`Router.MatchThrowAnswersError`).
- `PatternParse.ParamValidator`: `new RegExp` is a parameter that only says whether a source compiles and with what message; the regular expression language is not modelled.
- `path.join` and `extname`: these are parameters.
- `Date.toUTCString`: `Last-Modified` is an input string.
- `JSON.stringify`: the error body is the chunk `ErrorJson(message)`.
- The bundle's `resolver` and `resolveContentType` callbacks: user code is not modelled, so the model always probes siblings and uses the table.
- `StaticResponderDist.Weights`: `Number()` on a q-value is a parameter that only tells NaN, zero and non-zero apart, which is all the sibling choice reads. The numeric weight is not kept, so weights are stated as zero or non-zero.
- `StaticResponder.Respond`: `Math.trunc(mtimeMs)` is taken as a natural number in `Stat`; fractional times are not modelled.
- `Strings.Less`: JavaScript compares UTF-16 code units. The model compares Dafny characters, which agree on the Basic Multilingual Plane.
- `Strings.Upper`, `Strings.Lower`: only ASCII letters change case; Unicode case mapping is not modelled.
- `PathRoute.LowerBound`: `(l + r) >>> 1` is taken as halving, which holds while `l + r` stays below 2^32.
- `Router.Handle`: the `catch` block's `res.setHeader` throws `ERR_HTTP_HEADERS_SENT` in Node when a handler already sent the headers, and that error escapes the request handler. The response object does not model sent headers, so `Handle` promises that nothing escapes.
- `Strings.ParseInt`: `parseInt` returns a double. The model returns the exact integer, which agrees with JavaScript only below 2^53.
- `Strings.NatToString`: `String(n)` prints exponent form from 1e21 on. The model prints every natural number in plain digits.
- `Strings.ParseIntNatToString`: holds exactly for the model; in JavaScript the round trip fails from 2^53 on.
- `StaticResponder.BoundOfNumeral`: read through the exact `parseInt` above, so it holds in JavaScript only below 2^53.
- `StaticResponder.RangeEndNotClamped`: `n + 1` is exact here; in JavaScript the announced length is exact only below 2^53.
- `StaticIndexDist.RebuildDistAliases`: covers directories with some entry that is not hidden and not a link; the key of an empty directory is never refreshed, so nothing is claimed for it.
- `PatternMatch.GoParams`: promises exact bindings only when names are distinct along every trie path. With a repeated name, undoing the inner binding deletes the outer one too (`PatternMatch.LostBinding`).
- `StaticIndex.Rebuild`: a failing `readdir` rejects the whole rebuild before the map is replaced, and `start()` swallows the rejection, so the old map is kept. This is not modelled: the tree is always fully readable.
- `Object.entries` order for an error's headers and for configured content types is taken as the order given.

## Findings

| source | as written | input that shows it | evidently intended | confidence | as-written member | corrected member |
|---|---|---|---|---|---|---|
| dist/es/index.js:253-256 | The HEAD wrapper replaces `res.end` by a no-op and puts it back only after the GET handler returns normally. | A HEAD request to a path with only a GET handler, which throws `Error("boom")` before writing anything. The router's error response then calls the no-op `end`, and the response is never finished. | Put `res.end` back in a `finally`, so the router's error response finishes the response. | not executed; the hang follows from the code | `PathRouteDist.HeadAsWrittenHangs` | `PathRouteDist.HeadWrapErrorEnds` |
| dist/es/index.js:187-193 | The index-file probe is `s + o + "/" + w`, and the alias key is `s + o`. In a sub-directory the `/` between the URL base and the directory is missing. | Base `/static`, root `/srv` holding `docs/index.html`, index files `["index.html"]`. The probe is `/staticdocs/index.html`, so `/static/docs` is never indexed. | Use `s + "/" + o` for a sub-directory `o` and `s` for the root, as the file keys do. | not executed; the key mismatch follows from the code | `StaticIndexDist.AliasAsWrittenMissing` | `StaticIndexDist.AliasCorrected` |
