# GitHub project catalog — a Dafny model

This project models the part of the portfolio site that turns the GitHub REST
list of a user's repositories into the project cards that the "Projects"
section shows (`src/services/githubService.js`). The model covers:

- **`generateColor`**: the sum of a string's character codes, modulo 15,
  picks one entry of a fixed 15-colour palette.
- **The filter / sort / map chain inside `fetchGitHubProjects`**:
  - private repositories are dropped;
  - the rest are sorted newest `updated_at` first, keeping the response
    order on ties;
  - each repository and its sorted index become a card. The card gets a
    title with hyphens turned into spaces, and fallback description and
    language texts. It also gets two palette colours (from the name, and
    from the name followed by the index in decimal), a placeholder SVG image
    as a base 64 data URI, and the GitHub Pages URL.
- **`generateSVGImage`**: a fixed SVG template whose label is the title cut
  to 16 characters. It is encoded with the browser's `btoa`, which throws
  on any character above U+00FF.
- **`generateGitHubPagesUrl`**.
- **The fail-soft rule**: a transport failure, a non-OK status, an unusable
  body or a throw while building the cards all yield the empty list.

Modules:

- `Options`: the `Option` type used for every "may fail" result.
- `Decimal`: the decimal rendering of an index, as in `repo.name + index`.
- `Base64`: `btoa` and its inverse `atob`, per section 4 of RFC 4648.
- `GitHubService`:
  - the repository and card records;
  - the operations listed above;
  - the end-to-end lemmas about the catalog `FetchGitHubProjects` returns.

Modelling choices:

- The HTTP exchange is an input value, `Response`. It is either
  `NetworkError`, or a status with a body. The body is `None` when
  `response.json()` would not give a repository list.
- `response.ok` is read as a status in 200–299.
- `updated_at` is an integer timestamp. The comparator
  `new Date(b) - new Date(a)` then orders exactly by that integer.
- `Array.prototype.sort` is stable. It is modelled by an insertion sort,
  `SortByUpdated`. `SortByUpdatedUnique` shows that this insertion sort is
  the only stable newest-first ordering, so it fixes the sort's output
  without depending on the algorithm the engine uses.
- The SVG template is written with CRLF line ends in the source file. A
  JavaScript template literal turns each CRLF into LF, so the model's
  template uses `"\n"`.
- A `btoa` throw inside the `.map` callback aborts the whole chain. The
  surrounding `try` then returns `[]`. `ToProject` and `MapIndexed` return
  `None` for this, and `FetchGitHubProjects` maps `None` to `[]`.
- Card ids are distinct only when the response's ids are distinct.
  `CatalogUniqueIds` states this conditionally; nothing in the code checks
  it.
- The empty list for "no public repositories" cannot be told apart from the
  empty list for a failure. `EmptyListIndistinguishableFromFailure` states
  this: the caller receives the same value in every case.

## Model

| member | source | states |
|---|---|---|
| GitHubService.PaletteAt | src/services/githubService.js:12-31 | whatever the code sum, the colour it selects is one of the 15 palette entries |
| GitHubService.GenerateColor | src/services/githubService.js:11-31 | the colour of any string, whatever its characters, is one of the 15 palette entries |
| GitHubService.CharCodeSumConcat | src/services/githubService.js:30 | the code sum of a concatenation is the sum of the parts' code sums |
| GitHubService.CharCodeSumWithout | src/services/githubService.js:30 | removing one character lowers the code sum by exactly that character's code |
| GitHubService.CharCodeSumPermutation | src/services/githubService.js:30 | two strings with the same characters, in any order, have the same code sum |
| GitHubService.ColorOfPermutation | src/services/githubService.js:11-31 | any reordering of a string's characters gives the same colour |
| GitHubService.SecondaryColor | src/services/githubService.js:89 | the secondary colour of a name at an index is the palette entry for the name's code sum plus the code sum of the index's decimal digits |
| GitHubService.SecondaryDiffers | src/services/githubService.js:89 | the same name at indices 0 and 1 gets two different secondary colours, so the index does change the colour |
| Decimal.NatToString | src/services/githubService.js:89 | the decimal rendering of an index is non-empty, all digits, and has no leading zero unless the index is 0 |
| Decimal.ParseNatToString | src/services/githubService.js:89 | reading the rendering back as decimal gives the index again |
| Decimal.NatToStringInjective | src/services/githubService.js:89 | different indices render as different strings |
| GitHubService.Title | src/services/githubService.js:90 | the title has the name's length, has a space where the name has `-`, has the name's character everywhere else, and contains no `-` |
| GitHubService.GitHubPagesUrl | src/services/githubService.js:56-58 | the URL is `https://mirzajawad2026.github.io/`, then the repository name, then `/`, with the length of those three |
| GitHubService.GitHubPagesUrlInjective | src/services/githubService.js:56-58 | different repository names give different Pages URLs |
| GitHubService.OrDefault | src/services/githubService.js:99-104 | a present, non-empty text is kept; a missing or empty one becomes the fallback |
| GitHubService.Label | src/services/githubService.js:48 | the label is the first min(16, length) characters of the title, and a title of at most 16 characters is shown whole |
| GitHubService.GenerateSVGImage | src/services/githubService.js:35-53 | the image exists exactly when the markup is Latin-1; then it is the data-URI prefix followed by text that `atob` decodes back to the markup |
| GitHubService.SvgMarkupAroundLabel | src/services/githubService.js:37-50 | the markup is a head that does not depend on the title, then the label, then the closing text |
| GitHubService.SvgMarkupDeterminedByLabel | src/services/githubService.js:37-50 | for fixed colours, two titles give the same markup exactly when their 16-character labels are equal |
| GitHubService.SvgMarkupTruncates | src/services/githubService.js:48 | a title longer than 16 characters gives the same markup as its first 16 characters |
| GitHubService.PaletteIsLatin1 | src/services/githubService.js:12-28 | every palette colour is Latin-1 text |
| GitHubService.ConcatLatin1 | src/services/githubService.js:37-50 | text joined from parts is Latin-1 exactly when every part is |
| GitHubService.TemplateIsLatin1 | src/services/githubService.js:37-50 | every character of the template's own text, around the colours and the label, is Latin-1 |
| GitHubService.SvgMarkupLatin1 | src/services/githubService.js:37-52 | the markup is Latin-1 exactly when both colours and the label are |
| Base64.Encode | src/services/githubService.js:52 | the base 64 text has 4 characters per started group of 3 bytes |
| Base64.DecodeEncode | src/services/githubService.js:52 | decoding the base 64 text of any bytes gives those bytes back |
| Base64.Btoa | src/services/githubService.js:52 | `btoa` succeeds exactly on Latin-1 strings, with 4 characters per started group of 3 |
| Base64.Atob | src/services/githubService.js:52 | whatever `atob` decodes is Latin-1 |
| Base64.AtobBtoa | src/services/githubService.js:52 | for a Latin-1 string, `atob(btoa(s))` is `s` |
| GitHubService.PublicOnly | src/services/githubService.js:85 | the filtered list is no longer than the input and holds only public repositories |
| GitHubService.PublicOnlyCount | src/services/githubService.js:85 | each public repository is kept as many times as it occurs; each private one is dropped |
| GitHubService.PublicOnlyMembers | src/services/githubService.js:85 | a repository is in the filtered list exactly when it is in the input and public |
| GitHubService.PublicOnlyConcat | src/services/githubService.js:85 | filtering a concatenation concatenates the filtered parts |
| GitHubService.PublicPositions | src/services/githubService.js:85 | the kept repositories sit at strictly increasing input positions, so relative order is kept |
| GitHubService.PublicPositionsComplete | src/services/githubService.js:85 | every public repository's input position is one of those positions |
| GitHubService.InsertByUpdated | src/services/githubService.js:86 | inserting into a newest-first list keeps it newest first and adds exactly that element |
| GitHubService.SortByUpdated | src/services/githubService.js:86 | the sorted list is newest first, with the same length and the same elements as the input |
| GitHubService.InsertStable | src/services/githubService.js:86 | for every timestamp, the repositories with it appear after insertion in the same order as with the new one put first |
| GitHubService.SortStable | src/services/githubService.js:86 | for every timestamp, the repositories with it appear in the sorted list in input order |
| GitHubService.NewestFirstStableUnique | src/services/githubService.js:86 | two newest-first lists with the same per-timestamp order are equal |
| GitHubService.SortByUpdatedUnique | src/services/githubService.js:86 | every stable newest-first ordering of the input is exactly the sorted list |
| GitHubService.ToProject | src/services/githubService.js:87-107 | the callback builds a card exactly when the card's image markup is Latin-1 |
| GitHubService.MapIndexed | src/services/githubService.js:87-108 | the map succeeds exactly when every callback does; then it has one result per element, each the callback's result for that element and its index |
| GitHubService.FetchGitHubProjects | src/services/githubService.js:60-116 | transport failure, non-OK status and unusable body give `[]`; a non-empty result is the built catalog of an OK response; an OK response whose catalog builds returns it |
| GitHubService.SourcesArePublic | src/services/githubService.js:84-86 | the sorted list is as long as the filtered one and holds exactly the public repositories of the response |
| GitHubService.CatalogShape | src/services/githubService.js:84-108 | a built catalog has one card per public repository, never more cards than repositories, with non-increasing `updatedAt` |
| GitHubService.ToProjectFields | src/services/githubService.js:96-107 | a card copies id, `html_url`, stars and `updated_at`; it derives title, colour and Pages URL from the name; it applies the description and language fallbacks |
| GitHubService.ToProjectImage | src/services/githubService.js:92-93 | a card's image is a base 64 data URI of the markup for its title, primary colour and index-dependent secondary colour |
| GitHubService.CardAt | src/services/githubService.js:87-108 | card k is the callback's result on the k-th sorted public repository at index k |
| GitHubService.CatalogFields | src/services/githubService.js:96-107 | card k carries the copied and derived fields of the k-th sorted public repository |
| GitHubService.CatalogRecord | src/services/githubService.js:84-108 | card k comes from a public repository of the response; it carries that repository's copied and derived fields, and an image of its markup at index k |
| GitHubService.CardIds | src/services/githubService.js:97 | card k has the id of the k-th sorted public repository |
| GitHubService.PublicOnlyUniqueIds | src/services/githubService.js:85 | filtering keeps distinct ids distinct |
| GitHubService.InsertUniqueIds | src/services/githubService.js:86 | inserting a repository with a new id keeps ids distinct |
| GitHubService.SortUniqueIds | src/services/githubService.js:86 | sorting keeps distinct ids distinct |
| GitHubService.CatalogUniqueIds | src/services/githubService.js:84-108 | distinct ids in the response give distinct card ids |
| GitHubService.MissingFieldsFallBack | src/services/githubService.js:99-104 | card k has a repository at position k of the sorted list; independently of each other, a card whose repository has no or an empty description shows "A GitHub repository project", and one whose repository has no or an empty language shows "Repository" |
| GitHubService.ImageEncodableIff | src/services/githubService.js:93 | a repository's image at any index can be encoded exactly when its label is Latin-1 |
| GitHubService.BuildProjectsSome | src/services/githubService.js:87-108 | the map succeeds exactly when every sorted repository's image can be encoded at its index |
| GitHubService.PublicHasPosition | src/services/githubService.js:84-86 | every public repository of the response has a position in the sorted list |
| GitHubService.EncodedAtSomePosition | src/services/githubService.js:93 | if every image can be encoded, each public repository's label is Latin-1 |
| GitHubService.EncodableOnlyIfLatin1 | src/services/githubService.js:87-108 | if every image can be encoded, every public repository's label is Latin-1 |
| GitHubService.EncodableIfLatin1 | src/services/githubService.js:87-108 | Latin-1 labels of all public repositories make every image encodable |
| GitHubService.CatalogBuiltIff | src/services/githubService.js:84-115 | the catalog is built, rather than collapsing to `[]`, exactly when every public repository's label is Latin-1 |
| GitHubService.EmptyListIndistinguishableFromFailure | src/services/githubService.js:75-115 | an OK empty list, a 403, an unusable body and a transport failure all return the same `[]` |
| GitHubService.ScenarioPublic | src/services/githubService.js:85 | from public a, private b, public c, public d, the filter keeps a, c, d |
| GitHubService.ScenarioTimestamps | src/services/githubService.js:86 | when a is older than c, and c and d tie, the order c, d, a keeps every timestamp's repositories in the order of a, c, d |
| GitHubService.ScenarioSorted | src/services/githubService.js:84-86 | when a is older than c, and c and d tie, the sorted list is c, d, a |

## Left out

- The `fetch` call, the request headers, the token read from the build
  environment and `response.json()` (src/services/githubService.js:6-8,
  62-73, 80). They are network and environment I/O. The exchange is the
  input `Response`, and a body that does not parse as a repository list is
  `None`.
- Malformed repository objects are not modelled: a missing `name`, or a
  non-array JSON value, would throw inside the chain and so also give `[]`.
  Every `Repository` value is well formed.
- The `per_page=100` page size. The GitHub server truncates the list before
  it reaches the code, so the response is taken as given.
- All `console.log` and `console.error` calls, which are logging only.
- `Date` parsing of `updated_at`: timestamps are integers. An unparsable
  date, which would make the comparator return `NaN`, is not modelled.
- JavaScript strings are UTF-16. `charCodeAt`, `substring(0, 16)` and
  `btoa` count code units, while the model counts Unicode scalar values.
  The two differ only for characters outside the Basic Multilingual Plane.
  Whether `btoa` throws comes out the same. The first such character
  within the first 16 characters also starts within the first 16 code
  units, and its surrogates are above U+00FF. The colours do differ: for
  `abcdefghijklmnop😀` the cut drops the emoji in both readings, so the
  image encodes, but `charCodeAt` adds the two surrogate codes where the
  model adds the one code point.
- The React components (`src/components/Projects.jsx`,
  `src/components/GitHubStats.jsx`, `src/App.jsx`) are not part of this
  model. They cover rendering, hooks, animation and the `mounted`
  cancellation flag of the asynchronous effect. The star total that
  `GitHubStats.jsx` folds over the cards is left out with them.
- The `async`/`await` structure: the model is the value the promise
  resolves to.
