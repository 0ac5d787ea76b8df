# logseq-gallery: the gallery view, modelled in Dafny

The plugin shows a set of Logseq pages as a gallery. Each page becomes a card
(`Note`). A card has a cover: the page's cover image if it has one, else a
small preview of the page content with its property lines (`key:: value`)
removed, else the words "No Cover". Below the cover the card shows the page
icon, the page title and a coloured chip per tag. The chip colour is derived
from a string hash of the tag. With no pages the gallery says "There is
nothing".

The model follows `src/Gallery.tsx` function by function:

- `wrappers.dfy` holds `Option`.
- `js_string.dfy` holds JavaScript strings as sequences of UTF-16 code units,
  plus `trim`, `startsWith`, `indexOf`, and `replace` with a string pattern.
- `uri.dfy` models `encodeURI` as ECMA-262 defines it, with its Encode operation. Code
  units outside the URI character set become the percent-encoded UTF-8
  bytes of their code point, and a surrogate pair counts as one code point.
  A lone surrogate is a `URIError`.
- `regex.dfy` holds the backtracking semantics of `String.prototype.match` and
  `String.prototype.replace`. It covers the patterns the gallery uses:
  literal code units and greedy `.*`, with an optional capture group.
- `tag_color.dfy` models `stringToDarkerColor` as an imperative method with
  the two loops of the source. The method is proved equal to a reference
  definition, `DarkerColor`, which is the 32-bit polynomial hash read as
  three darkened channels. ECMAScript's `ToInt32`, `<<`, `>>` and `& 0xFF`
  are written out.
- `image_url.dfy` models `processImageURL`. It is characterised by the image
  reference (`![`, `](`, `)` on one line) that the greedy regular expression
  settles on.
- `markdown.dfy` models `processMarkdown` as a method with the source's
  `while` loop. The method is proved equal to `StripProperties`, which
  empties every line containing `::` and keeps every line terminator.
- `gallery.dfy` models the `Note`, `Tag` and `Gallery` components as the data
  they render. A JavaScript error that aborts rendering is `Fail(TypeError)`
  or `Fail(URIError)`. A `TypeError` comes from a property read of
  `undefined` or a call of a missing method. A `URIError` comes from
  `encodeURI`. The first failing card aborts the whole gallery.

Behaviour of the code that is easy to miss:

- `imageURL.replace("..", "")` removes only the first `..`, and so does the
  model.
- `processMarkdown` returns every falsy input unchanged, the empty string as
  well as `undefined`.
- A cover property made only of white space is truthy. The image branch is
  taken with the empty URL, so the banner is the graph's asset directory.
- An empty `tags` array is truthy, so it hides `properties.tags`.
- The banner is computed for every card, even when no image is shown. A
  graph path with a lone surrogate therefore fails every card whose cover
  property is falsy.

## Model

| member | source | states |
|---|---|---|
| JsString.Trim | src/Gallery.tsx:28 | the trimmed string is no longer than the input, starts and ends with a non-trimmable unit, and is empty exactly when the input is all white space and line terminators |
| JsString.TrimPadded | src/Gallery.tsx:28 | trimming removes any white space around a string whose ends are not white space, and nothing else |
| JsString.TrimUnchanged | src/Gallery.tsx:28 | `trim` returns its input exactly when that input is empty or starts and ends with a non-trimmable unit |
| JsString.StartsWith | src/Gallery.tsx:83 | `s.startsWith(p)` holds exactly when s is p followed by some string |
| JsString.IndexOfFrom | src/Gallery.tsx:83 | `indexOf` finds the first occurrence of the pattern at or after the start, or reports that there is none |
| JsString.ReplaceString | src/Gallery.tsx:83 | `replace` with a string pattern leaves a string without the pattern unchanged, and otherwise replaces only its first occurrence |
| JsString.JoinWithCommas | src/Gallery.tsx:28 | `String(array)` gives the empty string for an empty array and the element itself for a one-element array |
| Regex.MatchHere | src/Gallery.tsx:30 | an anchored match of the pattern at i, the backtracking matcher of `match`, ends within the string and so does its capture group |
| Regex.SearchFrom | src/Gallery.tsx:31 | a search from p reports a match starting at or after p that lies within the string |
| Regex.FirstMatch | src/Gallery.tsx:31 | a match and its capture group lie within the string |
| Regex.SearchFromFails | src/Gallery.tsx:31 | a search fails exactly when the pattern matches at no start position |
| Regex.SearchFromChoice | src/Gallery.tsx:31 | a successful search reports the leftmost start position at which the pattern matches, with that match |
| Regex.StarFromChoice | src/Gallery.tsx:30 | a greedy `.*` settles on the longest consumption after which the rest of the pattern matches |
| Regex.StarFromFails | src/Gallery.tsx:30 | a `.*` fails exactly when the rest of the pattern fails after every consumption |
| Regex.Replace | src/Gallery.tsx:53 | `replace` with a regular expression leaves the string unchanged when nothing matches; otherwise it replaces the match at the leftmost matching position, and nothing else |
| Uri.EncodeUri | src/Gallery.tsx:83 | an encoding is at least as long as its input and holds only URI characters and `%` |
| Uri.EncodeFails | src/Gallery.tsx:83 | `encodeURI` throws a URIError exactly when the string holds a lone surrogate |
| Uri.EncodeKept | src/Gallery.tsx:83 | a string of URI characters is its own encoding |
| Uri.EncodeKeptPrefix | src/Gallery.tsx:83 | a prefix of URI characters, such as `assets://`, is copied in front of the encoding of the rest |
| Uri.EncodeSpace | src/Gallery.tsx:83 | a space becomes `%20` |
| TagColor.ToInt32 | src/Gallery.tsx:10 | ToInt32 gives the 32-bit integer congruent to its argument modulo 2^32 |
| TagColor.ShiftLeft | src/Gallery.tsx:10 | `x << n` is a 32-bit integer congruent to ToInt32(x) * 2^(n mod 32) |
| TagColor.ShiftRight | src/Gallery.tsx:17 | `x >> n` is the floor of ToInt32(x) / 2^(n mod 32) |
| TagColor.LowByte | src/Gallery.tsx:17 | `x & 0xFF` is x modulo 256 |
| TagColor.JsHash | src/Gallery.tsx:8-11 | after n code units, the absolute value of `hash` is at most n * 2^32 |
| TagColor.ToHex | src/Gallery.tsx:19 | `n.toString(16)` is a non-empty string of lower-case hexadecimal digits |
| TagColor.StringToDarkerColor | src/Gallery.tsx:7-23 | the two loops compute `DarkerColor(str)`: the channels of the 32-bit hash, two hexadecimal digits each |
| TagColor.HashAgrees | src/Gallery.tsx:8-11 | the hash loop's exact JavaScript value agrees modulo 2^32 with the fold h := 31h + c mod 2^32 |
| TagColor.LowByteOfShift | src/Gallery.tsx:17 | `(hash >> (i * 8)) & 0xFF` is byte i of the hash modulo 2^32, for each of the three channels |
| TagColor.ChannelHasTwoDigits | src/Gallery.tsx:19-20 | `toString(16)` of `value % 128 + 64` always has two digits, so the `'0'` padding is never used |
| TagColor.HexRoundTrip | src/Gallery.tsx:19 | reading `n.toString(16)` back as hexadecimal gives n |
| TagColor.DarkerColorShape | src/Gallery.tsx:14-22 | the colour is `#` followed by six lower-case hexadecimal digits |
| TagColor.DarkerColorChannels | src/Gallery.tsx:15-21 | channel i of the colour is byte i of the hash reduced to seven bits plus 64, in [64, 191] |
| TagColor.DarkerColorEmpty | src/Gallery.tsx:7-23 | the empty tag gets `#404040` |
| TagColor.DarkerColorOfA | src/Gallery.tsx:7-23 | the tag `a` (hash 97) gets `#a14040` |
| ImageUrl.ProcessImageUrl | src/Gallery.tsx:27-36 | the result is no longer than the trimmed input, which is no longer than the input |
| ImageUrl.ImageUrlUnmatched | src/Gallery.tsx:27-36 | without an image reference on one line, the trimmed input is returned |
| ImageUrl.ImageUrlMatched | src/Gallery.tsx:27-34 | with one, the url of the first reference is returned, with `)` taken last on the line and `](` last before it |
| ImageUrl.FirstRefExists | src/Gallery.tsx:30-32 | whenever an image reference occurs, there is a first greedy one, so `match` succeeds |
| ImageUrl.ImageUrlShape | src/Gallery.tsx:27-36 | the result is the trimmed input when no reference occurs; otherwise it has no line terminator and occurs in the trimmed input as `](url)` |
| ImageUrl.ImageUrlOfRef | src/Gallery.tsx:27-36 | `![alt](url)` surrounded by white space gives url, when alt and url have no line terminator and url has no `](`: `foo/bar.png` for `![alt](foo/bar.png)`, empty for `![alt]()`, `b)c` for `![a](b)c)`, and `d` for `![a](b) ![c](d)` |
| ImageUrl.GreedyUnique | src/Gallery.tsx:30 | for a start position the greedy reference is unique |
| Markdown.ProcessMarkdown | src/Gallery.tsx:46-61 | the loop returns `undefined` and `""` unchanged and otherwise terminates with `StripProperties` of the content |
| Markdown.Sanitize | src/Gallery.tsx:46-61 | `processMarkdown` returns `undefined` exactly for `undefined`; otherwise no line of its result contains `::`, and the result is the content itself exactly when no line of the content does |
| Markdown.PropsFirstMatch | src/Gallery.tsx:51-52 | `.*::.*` matches exactly when some line contains `::`; its first match is the whole first such line, without its terminator |
| Markdown.ReplaceEmptiesPropertyLine | src/Gallery.tsx:52-54 | one turn of the loop shortens the text (so the loop ends) and does not change its stripped form |
| Markdown.StripHasNoColons | src/Gallery.tsx:50-54 | no line of the result contains `::`, so the loop has nothing left to match |
| Markdown.StripUnchanged | src/Gallery.tsx:47-60 | the content is returned unchanged exactly when no line contains `::` |
| Markdown.StripLines | src/Gallery.tsx:50-54 | the result has as many lines as the input; a line with `::` becomes empty and every other line is kept |
| Markdown.StripKeepsTerminators | src/Gallery.tsx:53 | every line terminator is kept, in order |
| Markdown.StripIdempotent | src/Gallery.tsx:46-61 | processing the result again changes nothing |
| Markdown.StripEmpty | src/Gallery.tsx:87 | the result is empty exactly when the content is empty or is a single line containing `::` |
| Gallery.Lookup | src/Gallery.tsx:77 | `page.properties?.[key]` is defined exactly when the page has properties holding key, and is then that property's value (also read at lines 89 and 151) |
| Gallery.Truthy | src/Gallery.tsx:107 | JavaScript truthiness of a property value, as tested by the logical or, the conditional and the logical and at lines 77, 89, 107, 119, 136 and 151: `undefined` and `""` are falsy, every array, even an empty one, is truthy |
| Gallery.TruthyString | src/Gallery.tsx:119 | the truthiness of a string or `undefined` (`markdown` at lines 119 and 136, `originalName` at line 152) agrees with `Truthy` of the same string |
| Gallery.ToText | src/Gallery.tsx:28 | `String(rawImageURL)` is a string value itself, the empty string for an empty array and the element for a one-element array |
| Gallery.RawImage | src/Gallery.tsx:77 | `rawImageURL`, the cover property or else `""`, is truthy exactly when the cover property is |
| Gallery.AssetUrl | src/Gallery.tsx:83 | `encodeURI("assets://" + path)` throws a URIError exactly when path holds a lone surrogate, and is otherwise `assets://` followed by the encoding of path |
| Gallery.BannerOf | src/Gallery.tsx:83 | `propsBanner` is the remote URL exactly when the image URL starts with `http`; its only error is a URIError |
| Gallery.NoteBanner | src/Gallery.tsx:77-83 | the banner computed for a card can fail only with a URIError |
| Gallery.EmptyUrlBanner | src/Gallery.tsx:77-83 | the empty image URL gives `encodeURI("assets://" + graphPath)` |
| Gallery.NoteBannerOf | src/Gallery.tsx:77-83 | the banner is computed from a truthy cover property, and from the empty URL otherwise |
| Gallery.FalsyCoverUriError | src/Gallery.tsx:77-83 | without a cover property, a card fails with a URIError exactly when the graph path holds a lone surrogate |
| Gallery.LoneSurrogateGraphPath | src/Gallery.tsx:83 | the graph path made of the lone surrogate 0xD800 fails every card without a cover property |
| Gallery.BannerRemote | src/Gallery.tsx:83 | a URL starting with `http` is used verbatim |
| Gallery.BannerAsset | src/Gallery.tsx:83 | any other URL gives the encoding of `assets://` + graph path + the URL with its first `..` removed |
| Gallery.BannerAssetPlain | src/Gallery.tsx:83 | a URL without `..` is appended unchanged before encoding |
| Gallery.BannerAssetKept | src/Gallery.tsx:83 | when the graph path and the URL hold only URI characters, the encoding changes nothing |
| Gallery.CoverOf | src/Gallery.tsx:106-142 | the image branch is taken exactly when the cover property is truthy |
| Gallery.CoverChoice | src/Gallery.tsx:77-142 | the image shows exactly when the cover property is truthy, with the page name as alt and the banner; otherwise the preview shows exactly when the stripped content is non-empty, and the preview then has no `::` line; otherwise "No Cover" |
| Gallery.OnlyPropertiesNoCover | src/Gallery.tsx:87-141 | without a cover, "No Cover" shows exactly when the content is empty or a single property line |
| Gallery.WhiteSpaceCover | src/Gallery.tsx:77-83 | a cover of white space only still takes the image branch, with the banner `encodeURI("assets://" + graphPath)` |
| Gallery.GalleryTags | src/Gallery.tsx:89 | `galleryTags.map` can fail only with a TypeError; a truthy `properties[tags]` that renders supplies the tags |
| Gallery.TagsChoice | src/Gallery.tsx:89 | the tags come from the first truthy of `properties[tags]` and `properties.tags`, else `[]`; a string value makes `.map` a TypeError; an empty array wins |
| Gallery.Chips | src/Gallery.tsx:155-160 | one chip per tag, in order, each carrying its tag |
| Gallery.ChipColors | src/Gallery.tsx:63-74 | each chip's colour is `stringToDarkerColor` of its tag: `#` and six hexadecimal digits, each channel in [64, 191] |
| Gallery.Icon | src/Gallery.tsx:151 | the icon is never empty |
| Gallery.IconDefault | src/Gallery.tsx:151 | the icon is `properties.icon` when that is truthy, and 📄 otherwise |
| Gallery.Title | src/Gallery.tsx:152 | the title is a TypeError exactly when the entity has no truthy original name and no `page.page` |
| Gallery.TitleChoice | src/Gallery.tsx:152 | the title is the entity's original name when truthy, else that of `page.page` |
| Gallery.Note | src/Gallery.tsx:76-165 | a card renders exactly when its banner, title and tags do; a failing banner makes it a URIError, and any other failure is a TypeError |
| Gallery.NoteRenders | src/Gallery.tsx:76-165 | a card renders exactly when its banner, title and tags do; the banner's URIError comes before a TypeError of the title or tags; a rendered card carries the cover, icon, title and one chip per tag |
| Gallery.Collect | src/Gallery.tsx:180-188 | rendering children gives one value per child |
| Gallery.CollectOk | src/Gallery.tsx:180-188 | children render exactly when each child renders, and then give the children's values in order |
| Gallery.CollectFirstFailure | src/Gallery.tsx:180-188 | rendering fails with the error of the first failing child |
| Gallery.Cards | src/Gallery.tsx:180-188 | `pages.map` gives one card per page |
| Gallery.CardsPerPage | src/Gallery.tsx:180-188 | `pages.map` renders exactly when every page's card renders, with one card per page, in order |
| Gallery.CardsFirstFailure | src/Gallery.tsx:180-188 | when the gallery fails, it fails with the error of the first page whose card fails |
| Gallery.Gallery | src/Gallery.tsx:174-197 | a rendered gallery keeps its title and says "There is nothing" exactly when it has no card |
| Gallery.GalleryView | src/Gallery.tsx:174-197 | the gallery renders exactly when every card renders; it then keeps its title, has one card per page in order, and says "There is nothing" exactly when there are no pages |

## Left out

- Layout, CSS classes, sizes (`WIDTH`, `HEIGHT`, the `/ 0.4` scaling) and the
  React keys: they do not change what is shown.
- The rendering of the preview by `react-markdown`, and the loading of the
  image by the browser. The model stops at the string handed to each.
- The click wiring (`data-on-click`) that opens a page: it is a call into
  Logseq.
- Gallery.Lookup: `properties?.[key]` also finds members inherited from
  `Object.prototype`, so a key such as `constructor` or `toString` is truthy
  on every page. The model treats `properties` as a map with only its own
  keys.
- The Logseq host API behind `PageEntity`. An entity is reduced to the fields
  the gallery reads: `name`, `originalName`, `page.originalName`,
  `properties` and `content`.
- Property values other than strings and arrays of strings: numbers,
  booleans and objects have their own truthiness and `String` forms.
- JsString.JoinWithCommas: `String(array)` joins the elements with commas;
  the contract states only the empty and one-element cases.
- How React renders a non-string icon: `Icon` returns the property value
  itself.
- TagColor.JsHash: models `hash` as an exact integer. A JavaScript number
  stays exact while |hash| < 2^53. Each turn adds less than 2^32 to |hash|,
  so that range is left only after millions of code units. The model does
  not capture the rounding beyond that point.
- Regex: the engine covers only literal code units and `.*`, the only forms
  in `/!\[.*\]\((.*)\)/` and `/.*::.*/`.
