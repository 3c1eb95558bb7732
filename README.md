# Router model

A Dafny model of the request router of a small TypeScript HTTP framework
(`src/core/router.ts`). The router keeps an append-only table of routes. It
registers a controller by reading each method's metadata (HTTP verb, path
suffix, parameter bindings, optional response directive). It dispatches a
request to the first route whose verb and path shape match. It fills in the
request's path and query parameters. It runs the route's handler, which sorts
the bindings by `index` and resolves each to an argument. When a directive is
declared, the handler also writes the response. With no matching route the
router replies 404 "Not Found".

Modules:

- `Paths` (paths.dfy): `split("/")` exactly as JavaScript does it, `filter(Boolean)`, segments, parameter segments.
- `RouterTypes` (types.dfy): descriptors, routes, handlers, arguments, outcomes and the `Request` class.
- `Matching` (matching.dfy): `matchRoute`, `extractParams`, `extractQueryString`, the `find` over the table. `MatchingExamples` checks dispatch scenarios on concrete paths.
- `Arguments` (arguments.dfy): the stable in-place sort of the bindings by `index`, argument resolution, and the handler closure.
- `Registration` (registration.dfy): which methods become routes, and what each route holds.
- `Routing` (router.dfy): the `Router` class with its `routes` field, `Register` and `Handle`.

Inputs that the source obtains by reflection or from Node are parameters here:

- a `Controller` value lists the base path and one `Descriptor` per property name of the prototype, in property order;
- a `Request` carries the pathname and the query map already parsed from its URL;
- the controller method is a function `controller(action, args)` from its name and resolved arguments to its result.

The model follows the code as written; in particular:

- The route's verb is stored exactly as declared, not lower-cased. Only the request's verb is lower-cased, so a route declared as `"GET"` is never matched (`UpperCaseRouteMethodNeverMatches`).
- A method is registered only when both its verb and its path are truthy. A missing or empty verb or path skips it.
- A missing base path is rendered by the template string as the text `"undefined"` (`BaseText`).
- `extractParams` reads `pathSegments[index]`, which is undefined past the end of the path. Param values are therefore `Option<string>`, and every value is defined when the route matched (`MatchedParamsDefined`).

## Model

| member | source | states |
|---|---|---|
| `Paths.IsParam` | src/core/router.ts:106 | a segment is a parameter exactly when it starts with `:` |
| `Paths.ParamName` | src/core/router.ts:120-121 | the parameter name is the segment with its leading `:` removed, and `":" + name` gives the segment back |
| `Paths.Split` | src/core/router.ts:101-102 | `split("/")` always yields at least one piece, even for the empty string |
| `Paths.SplitHasNoSlash` | src/core/router.ts:101-102 | no piece of a split contains a `/` |
| `Paths.JoinSplit` | src/core/router.ts:101-102 | joining the pieces with `/` gives back the original string, so the split loses nothing |
| `Paths.SplitWord` | src/core/router.ts:101-102 | a string without `/` splits into itself alone |
| `Paths.SplitAtSlash` | src/core/router.ts:101-102 | the split of `a + "/" + b` is the split of `a` followed by the split of `b` |
| `Paths.NonEmpty` | src/core/router.ts:101-102 | `filter(Boolean)` keeps only non-empty pieces, each taken from the input, never more pieces than it was given, and every non-empty piece as often as it occurs in the input |
| `Paths.NonEmptyConcat` | src/core/router.ts:101-102 | filtering distributes over concatenation |
| `Paths.Segments` | src/core/router.ts:101-102 | every segment of a route template or a pathname is non-empty and contains no `/` |
| `Paths.SegmentsAtSlash` | src/core/router.ts:101-102 | the segments of `a + "/" + b` are the segments of `a` followed by those of `b` |
| `Paths.SlashesInsignificant` | src/core/router.ts:101-102 | a leading slash, a trailing slash or a doubled slash leaves the segments unchanged |
| `Paths.SegmentsOfWord` | src/core/router.ts:101-102 | a non-empty string without `/` is exactly one segment |
| `Matching.ToLower` | src/core/router.ts:79 | lower-casing keeps the length, maps each upper-case ASCII letter to its lower-case letter, and changes no other character |
| `Matching.LowerMethod` | src/core/router.ts:79 | a missing request method stays missing; a present one is the request method lower-cased, keeps its length, and lower-casing it again changes nothing |
| `Matching.SegmentsAgree` | src/core/router.ts:105-107 | `every` holds exactly when each route segment is a parameter or equals the path segment at its position |
| `Matching.MatchRoute` | src/core/router.ts:95-108 | a route matches exactly when its stored verb equals the request verb, the segment counts are equal, and each route segment is a parameter or equals the path segment at its position |
| `Matching.SlashesDoNotAffectMatching` | src/core/router.ts:101-102 | a request path with a leading or trailing slash matches exactly the routes that the path without it matches |
| `Matching.UpperCaseRouteMethodNeverMatches` | src/core/router.ts:79-81 | a route whose stored verb holds an upper-case letter matches no request, whatever the request's verb |
| `Matching.RouteMatchesOwnPath` | src/core/router.ts:100-107 | a route matches a request for its own path whose verb lower-cases to the route's verb |
| `Matching.At` | src/core/router.ts:122 | `pathSegments[index]` is defined exactly when the index is inside the path, and is then the segment at that index |
| `Matching.ParamsOf` | src/core/router.ts:119-124 | every value of the params map is undefined or one of the path's segments |
| `Matching.ParamsOfSpec` | src/core/router.ts:119-124 | the params map has exactly the names of the parameter segments as keys, so literal segments add nothing; each name maps to the path segment at the last position that declares it |
| `Matching.MatchedParamsDefined` | src/core/router.ts:84-85 | for a matched route every parameter value is defined and is the path segment at the last position naming it |
| `Matching.ExtractParams` | src/core/router.ts:111-127 | the loop builds the params map: keys are exactly the parameter names, and each value comes from the last position that declares the name |
| `Matching.CopiesDefinedUnique` | src/core/router.ts:134-138 | the copied query map is fully determined by the parsed query |
| `Matching.ExtractQueryString` | src/core/router.ts:130-140 | the copy holds exactly the keys whose value is defined, each with its value unchanged, and no key outside the input |
| `Matching.Find` | src/core/router.ts:80-82 | `find` returns the first matching route in table order: no earlier route matches, and it reports none exactly when no route matches |
| `Matching.FirstMatchSurvivesAppend` | src/core/router.ts:33 | routes appended later never take a request away from the route that already receives it |
| `Matching.FirstMatchAfterAppend` | src/core/router.ts:80-82 | a request that no old route matches goes to the first matching appended route, at its position after the old table |
| `MatchingExamples.TwoSegments` | src/core/router.ts:101-102 | `/a/b` and `/a/b/` both have the segments `a`, `b` |
| `MatchingExamples.UserIdExample` | src/core/router.ts:95-127 | `/users/:id` matches `/users/42` and `/users/42/`, and binds `id` to `"42"` |
| `MatchingExamples.CountMismatchExample` | src/core/router.ts:103 | `/a/:b` does not match `/a/b/c` |
| `MatchingExamples.FirstRegisteredWinsExample` | src/core/router.ts:80-82 | with `/users/:id` registered before `/users/me`, the request `/users/me` goes to the first |
| `MatchingExamples.OtherVerbExample` | src/core/router.ts:79-81 | a `POST` request does not match a route declared for `get`, even at the route's own path |
| `MatchingExamples.UpperCaseRequestExample` | src/core/router.ts:79-81 | a `GET` request matches a route declared for `get` at the route's own path |
| `Arguments.RunConcat` | src/core/router.ts:41 | the bindings with a given index in a concatenation are those of each part, in order |
| `Arguments.SwapKeepsRuns` | src/core/router.ts:41 | swapping two neighbours with different indexes keeps the relative order of the bindings for each index |
| `Arguments.RunCounts` | src/core/router.ts:41 | a binding occurs among those with its index as often as in the whole sequence |
| `Arguments.SameRunsIsPermutation` | src/core/router.ts:41 | a stable reordering is a permutation |
| `Arguments.InRun` | src/core/router.ts:41 | every binding appears among the bindings with its index |
| `Arguments.RunMembers` | src/core/router.ts:41 | the bindings with index `k` all come from the sequence and all have index `k` |
| `Arguments.RunHead` | src/core/router.ts:41 | the first binding leads the group for its own index and belongs to no other group |
| `Arguments.SortedHeadIsLeast` | src/core/router.ts:41 | the first binding of a sorted sequence has the least index |
| `Arguments.StableSortUnique` | src/core/router.ts:41 | two sequences sorted by index that order each index's bindings alike are equal, so the sorted argument order is determined and sorting again changes nothing |
| `Arguments.InsertAt` | src/core/router.ts:41 | one insertion step extends the sorted prefix by one binding, keeps each index's bindings in order, and leaves the elements after the step untouched |
| `Arguments.SortByIndex` | src/core/router.ts:41 | sorting in place leaves the bindings ascending by `index`, with ties in their original order |
| `Arguments.Resolve` | src/core/router.ts:42-53 | `body` gives the request body; `param` gives the defined path parameter of that name; `query` gives the query value of that name; anything else, or a missing name, gives undefined |
| `Arguments.RunHandler` | src/core/router.ts:36-70 | the handler resolves one argument per binding, in ascending index order with ties in declaration order; it calls the controller method with them; it writes the directive's status and content type when a directive exists; the body is JSON exactly when the content type is `application/json` |
| `Registration.Truthy` | src/core/router.ts:32 | a metadata string is truthy exactly when it is neither missing nor empty |
| `Registration.Registrable` | src/core/router.ts:32 | a method is skipped exactly when its verb or its path is missing or empty |
| `Registration.BaseText` | src/core/router.ts:35 | the template string renders a present base path as itself and a missing one as `"undefined"` |
| `Registration.BindingsOf` | src/core/router.ts:24-25 | the handler's bindings are the declared ones, or none when the metadata declares none |
| `Registration.RouteOf` | src/core/router.ts:33-71 | the route keeps the declared verb, which is non-empty; its path starts with the rendered base path and continues with the method's path, with nothing added between them; its handler holds the method's name, bindings and response directive |
| `Registration.RoutesFor` | src/core/router.ts:13-33 | a registration yields no more routes than there are methods, and each route has a non-empty verb and a non-empty path |
| `Registration.RoutesForConcat` | src/core/router.ts:13-33 | the routes of a method list are the routes of its first part followed by those of the rest, so routes are appended in method order |
| `Registration.RoutesForOne` | src/core/router.ts:32-35 | one method yields exactly one route, built from it, when it declares both a verb and a path, and no route otherwise |
| `Registration.RoutesForProvenance` | src/core/router.ts:32-35 | the appended routes are exactly those built from methods declaring both a verb and a path; each keeps the declared verb; its path is the base path followed by the method's path, joined as literal text |
| `Registration.RoutesForLength` | src/core/router.ts:32-33 | a registration appends at most one route per method, and one per method exactly when every method declares both a verb and a path |
| `Routing.Router.constructor` | src/core/router.ts:6 | the table starts empty |
| `Routing.Router.Register` | src/core/router.ts:9-74 | the new table is the old table, unchanged and in the same order, followed by the routes of the registrable methods in property order |
| `Routing.Router.Handle` | src/core/router.ts:77-92 | with no matching route: the reply is 404 "Not Found" and the request is untouched. Otherwise: the first matching route is chosen; `params` and `query` are filled in; that route's handler runs on the request |

## Left out

- Reflection and controller construction (`Reflect.getMetadata`, `Object.getOwnPropertyNames`, `new controller()`): registration takes an explicit `Controller` value. The shared controller instance is not modelled.
- URL parsing by Node's `url.parse`: the request carries the parsed pathname and query map. The parsed query's string-or-list values are taken as given.
- The call into the controller method: it is a pure function of the method name and the resolved arguments. The trailing `req` and `res` arguments, the `await`, and errors thrown by the handler are not modelled.
- The response object: `writeHead`, `end`, `status` and `send` become the `Write` record and the `Replied(404, "Not Found")` outcome. `JSON.stringify` is not modelled; `Serialised` marks that the JSON branch was taken.
- `Arguments.RunHandler`: sorts a fresh copy of the bindings on each call. The source sorts the array the closure shares across calls. Re-sorting an already sorted array changes nothing (`StableSortUnique`), so the arguments are the same.
- `Matching.ToLower`: only ASCII letters are lower-cased. JavaScript's `toLowerCase` also maps non-ASCII letters.
- `Arguments.Resolve`: a binding's name is always a string. The case where a `query` or `param` binding has no name is not modelled.
- Keys inherited by plain JavaScript objects (such as `constructor` or `__proto__`) are not modelled; the params and query maps only hold the entries written into them.
- A missing pathname: `url.pathname!` can be null, for example when the request URL is empty (src/core/router.ts:78, 81, 85). `matchRoute` then throws a `TypeError` at `pathname.split` for the first route whose verb equals the request's (src/core/router.ts:100-102), instead of replying 404. The model's request always carries a pathname string, so this error path is not modelled.
- Numeric quirks of the sort comparator (`NaN` or non-numeric indexes) are not modelled: indexes are integers.
