/**
  The gallery view: `Gallery` renders one card (`Note`) per page entity, in
  order, or "There is nothing" when there are no pages. A card shows a cover
  (the page's cover image, else a preview of its content with property lines
  removed, else "No Cover"), the page icon, the page title and a coloured
  chip per tag. The view is modelled as the data the components render:
  which branch is taken and which strings go where.
*/
module Gallery {
  import opened Wrappers
  import opened JsString
  import opened Markdown
  import opened ImageUrl
  import opened TagColor
  import opened Uri

  // ----- Page entities ------------------------------------------------------

  /** A page property value: a string, or an array of strings (the form in
      which Logseq keeps list-valued properties such as `tags`). */
  datatype Value = Str(s: JsString) | Strings(items: seq<JsString>)

  type Properties = map<JsString, Value>

  /** The page that a block entity belongs to (`page.page`). */
  datatype PageRef = PageRef(originalName: Option<JsString>)

  /** The fields of a Logseq entity that the gallery reads; `None` is
      `undefined`. */
  datatype Entity = Entity(
    name: Option<JsString>,
    originalName: Option<JsString>,
    page: Option<PageRef>,
    properties: Option<Properties>,
    content: Option<JsString>)

  // 'tags', 'icon', 'http', 'assets://', '..' and the page icon U+1F4C4.
  const TAGS: JsString := [0x74, 0x61, 0x67, 0x73]
  const ICON: JsString := [0x69, 0x63, 0x6F, 0x6E]
  const HTTP: JsString := [0x68, 0x74, 0x74, 0x70]
  const ASSETS: JsString := [0x61, 0x73, 0x73, 0x65, 0x74, 0x73, 0x3A, 0x2F, 0x2F]
  const DOT_DOT: JsString := [FULL_STOP, FULL_STOP]
  const PAGE_ICON: JsString := [0xD83D, 0xDCC4]

  /** `properties?.[key]`. */
  function Lookup(props: Option<Properties>, key: JsString): (r: Option<Value>)
    ensures r.Some? <==> props.Some? && key in props.value
    ensures r.Some? ==> r.value == props.value[key]
  {
    if props.Some? && key in props.value then Some(props.value[key]) else None
  }

  /** JavaScript truthiness of a property: `undefined` and the empty string
      are falsy, every array (even an empty one) is truthy. */
  predicate Truthy(v: Option<Value>)
    ensures Truthy(v) ==> v.Some?
    ensures v == Some(Str([])) ==> !Truthy(v)
    ensures v.Some? && v.value.Strings? ==> Truthy(v)
  {
    match v
    case None => false
    case Some(Str(s)) => s != []
    case Some(Strings(_)) => true
  }

  /** A truthy string: `processMarkdown`'s result tested by `markdown &&`. */
  predicate TruthyString(s: Option<JsString>)
    ensures TruthyString(s) <==> Truthy(if s.Some? then Some(Str(s.value)) else None)
  {
    s.Some? && s.value != []
  }

  /** `String(v)`. */
  function ToText(v: Value): (r: JsString)
    ensures v.Str? ==> r == v.s
    ensures v == Strings([]) ==> r == []
    ensures v.Strings? && |v.items| == 1 ==> r == v.items[0]
  {
    match v
    case Str(s) => s
    case Strings(items) => JoinWithCommas(items)
  }

  /** The JavaScript errors that abort rendering: a property read of
      `undefined` or a call of a missing method, and `encodeURI` on a lone
      surrogate. */
  datatype JsError = TypeError | URIError

  /** What a component produces: the rendered value, or the error that
      aborts rendering. */
  datatype Outcome<T> = Ok(value: T) | Fail(error: JsError)

  // ----- The card ------------------------------------------------------------

  /** Where the cover image is loaded from: a remote URL, or an asset of the
      graph given by its encoded `assets://` URL. */
  datatype Banner = Remote(url: JsString) | Asset(url: JsString)

  /** The three mutually exclusive covers. */
  datatype Cover = Image(alt: Option<JsString>, src: Banner) | Preview(markdown: JsString) | NoCover

  /** A tag chip and its background colour. */
  datatype Chip = Chip(tag: JsString, color: JsString)

  datatype Card = Card(name: Option<JsString>, cover: Cover, icon: Value, title: Option<JsString>, chips: seq<Chip>)

  /** `rawImageURL`: `properties?.[cover] || ""`, which is truthy exactly
      when the cover property is. */
  function RawImage(page: Entity, coverKey: JsString): (r: Value)
    ensures Truthy(Some(r)) <==> Truthy(Lookup(page.properties, coverKey))
  {
    var v := Lookup(page.properties, coverKey);
    if Truthy(v) then v.value else Str([])
  }

  /** `encodeURI("assets://" + path)`: it fails exactly when path holds a
      lone surrogate, and otherwise is `assets://` followed by the encoded
      path. */
  function AssetUrl(path: JsString): (r: Outcome<Banner>)
    ensures r.Fail? <==> HasLoneSurrogate(path)
    ensures r.Fail? ==> r.error == URIError
    ensures r.Ok? ==> EncodeUri(path).Some? && r.value == Asset(ASSETS + EncodeUri(path).value)
  {
    assert AllKept(ASSETS) by {
      forall k | 0 <= k < |ASSETS| ensures IsUriKept(ASSETS[k]) {
        assert ASSETS[k] in {0x61, 0x73, 0x65, 0x74, 0x3A, 0x2F};
      }
    }
    EncodeKeptPrefix(ASSETS, path);
    EncodeFails(path);
    match EncodeUri(ASSETS + path)
    case Some(e) => Ok(Asset(e))
    case None => Fail(URIError)
  }

  /** `propsBanner` for the processed image URL: a URL that starts with
      `http` is used as it is; any other becomes an encoded asset URL, which
      may fail. */
  function BannerOf(imageUrl: JsString, graphPath: JsString): (r: Outcome<Banner>)
    ensures (r.Ok? && r.value.Remote?) <==> StartsWith(imageUrl, HTTP)
    ensures r.Fail? ==> r.error == URIError
  {
    if StartsWith(imageUrl, HTTP) then Ok(Remote(imageUrl))
    else AssetUrl(graphPath + ReplaceString(imageUrl, DOT_DOT, []))
  }

  /** The banner a card computes (`imageURL`, then `propsBanner`), whether or
      not the image is shown. */
  function NoteBanner(page: Entity, graphPath: JsString, coverKey: JsString): (r: Outcome<Banner>)
    ensures r.Fail? ==> r.error == URIError
  {
    BannerOf(ProcessImageUrl(ToText(RawImage(page, coverKey))), graphPath)
  }

  /** The cover branch of `Note`: the image exactly when the cover property
      is truthy. */
  function CoverOf(page: Entity, banner: Banner, coverKey: JsString): (c: Cover)
    ensures c.Image? <==> Truthy(Lookup(page.properties, coverKey))
  {
    var raw := RawImage(page, coverKey);
    var markdown := Sanitize(page.content);
    if Truthy(Some(raw)) then Image(page.name, banner)
    else if TruthyString(markdown) then Preview(markdown.value)
    else NoCover
  }

  /** `galleryTags`, and the TypeError of `galleryTags.map` when the chosen
      value is a string. The strings come from a truthy `properties[tags]`
      when there is one. */
  function GalleryTags(props: Option<Properties>, tagsKey: JsString): (r: Outcome<seq<JsString>>)
    ensures r.Fail? ==> r.error == TypeError
    ensures r.Ok? && Truthy(Lookup(props, tagsKey)) ==> Lookup(props, tagsKey) == Some(Strings(r.value))
  {
    var v :=
      if Truthy(Lookup(props, tagsKey)) then Lookup(props, tagsKey)
      else if Truthy(Lookup(props, TAGS)) then Lookup(props, TAGS)
      else Some(Strings([]));
    match v
    case Some(Strings(items)) => Ok(items)
    case _ => Fail(TypeError)
  }

  /** One `Tag` per tag, in order. */
  function Chips(tags: seq<JsString>): (cs: seq<Chip>)
    ensures |cs| == |tags|
    ensures forall i :: 0 <= i < |tags| ==> cs[i].tag == tags[i]
  {
    seq(|tags|, i requires 0 <= i < |tags| => Chip(tags[i], DarkerColor(tags[i])))
  }

  /** `properties?.icon || '📄'`: never empty. */
  function Icon(props: Option<Properties>): (r: Value)
    ensures Truthy(Some(r))
  {
    if Truthy(Lookup(props, ICON)) then Lookup(props, ICON).value else Str(PAGE_ICON)
  }

  /** `page.originalName || page.page.originalName`: a TypeError exactly when
      the entity has no truthy original name and no `page`. */
  function Title(page: Entity): (r: Outcome<Option<JsString>>)
    ensures r.Fail? <==> !TruthyString(page.originalName) && page.page.None?
    ensures r.Fail? ==> r.error == TypeError
  {
    if TruthyString(page.originalName) then Ok(page.originalName)
    else match page.page
      case None => Fail(TypeError)
      case Some(p) => Ok(p.originalName)
  }

  /** The `Note` component. The banner is computed before anything is
      rendered, so its URIError comes first; the title and the tags are
      rendered after it. */
  function Note(page: Entity, graphPath: JsString, coverKey: JsString, tagsKey: JsString): (r: Outcome<Card>)
    ensures r.Ok? <==>
      NoteBanner(page, graphPath, coverKey).Ok? && Title(page).Ok? && GalleryTags(page.properties, tagsKey).Ok?
    ensures r.Fail? ==> r.error == (if NoteBanner(page, graphPath, coverKey).Fail? then URIError else TypeError)
  {
    match NoteBanner(page, graphPath, coverKey)
    case Fail(e) => Fail(e)
    case Ok(banner) =>
      match (Title(page), GalleryTags(page.properties, tagsKey))
      case (Ok(title), Ok(tags)) =>
        Ok(Card(page.name, CoverOf(page, banner, coverKey), Icon(page.properties), title, Chips(tags)))
      case _ => Fail(TypeError)
  }

  // ----- The gallery -----------------------------------------------------------

  /** The gallery's heading, its cards, and whether "There is nothing" shows. */
  datatype View = View(title: JsString, cards: seq<Card>, nothing: bool)

  /** Rendering a list of children: all their values, in order, or the error
      of the first child that fails, which aborts the rendering. */
  function Collect<T>(ns: seq<Outcome<T>>): (r: Outcome<seq<T>>)
    ensures r.Ok? ==> |r.value| == |ns|
  {
    if ns == [] then Ok([])
    else match ns[0]
      case Fail(e) => Fail(e)
      case Ok(c) =>
        match Collect(ns[1..])
        case Fail(e) => Fail(e)
        case Ok(cs) => Ok([c] + cs)
  }

  /** `pages.map(page => <Note .../>)`: one card per page. */
  function Cards(pages: seq<Entity>, graphPath: JsString, coverKey: JsString, tagsKey: JsString): (r: Outcome<seq<Card>>)
    ensures r.Ok? ==> |r.value| == |pages|
  {
    Collect(seq(|pages|, i requires 0 <= i < |pages| => Note(pages[i], graphPath, coverKey, tagsKey)))
  }

  /** The `Gallery` component: its heading, and "There is nothing" exactly
      when it has no card. */
  function Gallery(pages: seq<Entity>, graphPath: JsString, title: JsString, coverKey: JsString, tagsKey: JsString): (r: Outcome<View>)
    ensures r.Ok? ==> r.value.title == title && (r.value.nothing <==> r.value.cards == [])
  {
    match Cards(pages, graphPath, coverKey, tagsKey)
    case Ok(cards) => Ok(View(title, cards, |pages| == 0))
    case Fail(e) => Fail(e)
  }

  // ----- Properties ----------------------------------------------------------------

  /** A list of children renders exactly when every child does, and then
      holds their values in order. */
  lemma {:induction false} CollectOk<T>(ns: seq<Outcome<T>>)
    ensures var r := Collect(ns);
      (r.Ok? <==> forall i :: 0 <= i < |ns| ==> ns[i].Ok?) &&
      (r.Ok? ==> forall i :: 0 <= i < |ns| ==> r.value[i] == ns[i].value)
  {
    if ns != [] {
      CollectOk(ns[1..]);
      assert forall i :: 1 <= i < |ns| ==> ns[i] == ns[1..][i - 1];
    }
  }

  /** When a list of children fails, it fails with the error of the first
      child that fails. */
  lemma {:induction false} CollectFirstFailure<T>(ns: seq<Outcome<T>>) returns (i: nat)
    requires Collect(ns).Fail?
    ensures i < |ns| && ns[i].Fail? && Collect(ns).error == ns[i].error
    ensures forall j :: 0 <= j < i ==> ns[j].Ok?
  {
    if ns[0].Fail? {
      i := 0;
    } else {
      var i' := CollectFirstFailure(ns[1..]);
      i := i' + 1;
      assert forall j :: 1 <= j <= i ==> ns[j] == ns[1..][j - 1];
    }
  }

  /** The gallery renders exactly when every page's card renders; it then has
      one card per page, in order. */
  lemma CardsPerPage(pages: seq<Entity>, graphPath: JsString, coverKey: JsString, tagsKey: JsString)
    ensures var r := Cards(pages, graphPath, coverKey, tagsKey);
      (r.Ok? <==> forall i :: 0 <= i < |pages| ==> Note(pages[i], graphPath, coverKey, tagsKey).Ok?) &&
      (r.Ok? ==>
        |r.value| == |pages| &&
        (forall i :: 0 <= i < |pages| ==> r.value[i] == Note(pages[i], graphPath, coverKey, tagsKey).value))
  {
    var ns := seq(|pages|, i requires 0 <= i < |pages| => Note(pages[i], graphPath, coverKey, tagsKey));
    assert forall i :: 0 <= i < |pages| ==> ns[i] == Note(pages[i], graphPath, coverKey, tagsKey);
    CollectOk(ns);
  }

  /** When the gallery fails, it fails with the error of the first page
      whose card fails. */
  lemma CardsFirstFailure(pages: seq<Entity>, graphPath: JsString, coverKey: JsString, tagsKey: JsString)
    returns (i: nat)
    requires Cards(pages, graphPath, coverKey, tagsKey).Fail?
    ensures i < |pages| && Note(pages[i], graphPath, coverKey, tagsKey).Fail?
    ensures Cards(pages, graphPath, coverKey, tagsKey).error == Note(pages[i], graphPath, coverKey, tagsKey).error
    ensures forall j :: 0 <= j < i ==> Note(pages[j], graphPath, coverKey, tagsKey).Ok?
  {
    var ns := seq(|pages|, i requires 0 <= i < |pages| => Note(pages[i], graphPath, coverKey, tagsKey));
    i := CollectFirstFailure(ns);
    assert ns[i] == Note(pages[i], graphPath, coverKey, tagsKey);
    forall j | 0 <= j < i ensures Note(pages[j], graphPath, coverKey, tagsKey).Ok? {
      assert ns[j] == Note(pages[j], graphPath, coverKey, tagsKey);
    }
  }

  /** The gallery keeps its title and shows one card per page, in order;
      "There is nothing" shows exactly when there are no pages. */
  lemma GalleryView(pages: seq<Entity>, graphPath: JsString, title: JsString, coverKey: JsString, tagsKey: JsString)
    ensures var g := Gallery(pages, graphPath, title, coverKey, tagsKey);
      (g.Ok? <==> forall i :: 0 <= i < |pages| ==> Note(pages[i], graphPath, coverKey, tagsKey).Ok?) &&
      (g.Ok? ==>
        g.value.title == title &&
        |g.value.cards| == |pages| &&
        (forall i :: 0 <= i < |pages| ==> g.value.cards[i] == Note(pages[i], graphPath, coverKey, tagsKey).value) &&
        (g.value.nothing <==> pages == []))
  {
    CardsPerPage(pages, graphPath, coverKey, tagsKey);
  }

  /** The card of a page is its cover image exactly when the cover property
      is truthy; otherwise its content preview exactly when the content is
      not empty once its property lines are removed; otherwise "No Cover". */
  lemma CoverChoice(page: Entity, banner: Banner, coverKey: JsString)
    ensures var c := CoverOf(page, banner, coverKey); var v := Lookup(page.properties, coverKey);
      (c.Image? ==> c.alt == page.name && c.src == banner) &&
      (c.Preview? <==> !Truthy(v) && page.content.Some? && StripProperties(page.content.value) != []) &&
      (c.Preview? ==> c.markdown == StripProperties(page.content.value) && !HasColons(c.markdown)) &&
      (c.NoCover? <==> !Truthy(v) && (page.content.None? || StripProperties(page.content.value) == []))
  {
    if page.content.Some? {
      StripHasNoColons(page.content.value);
    }
  }

  /** Content whose only line is a property line gives "No Cover" when the
      cover property is falsy; with a line break it still has a preview. */
  lemma OnlyPropertiesNoCover(page: Entity, banner: Banner, coverKey: JsString)
    requires !Truthy(Lookup(page.properties, coverKey)) && page.content.Some?
    ensures CoverOf(page, banner, coverKey).NoCover? <==>
      (page.content.value == [] || (NoLineTerminator(page.content.value) && HasColons(page.content.value)))
  {
    CoverChoice(page, banner, coverKey);
    StripEmpty(page.content.value);
  }

  /** The empty URL gives the banner `encodeURI("assets://" + graphPath)`. */
  lemma EmptyUrlBanner(graphPath: JsString)
    ensures BannerOf(ProcessImageUrl([]), graphPath) == AssetUrl(graphPath)
  {
    assert Trim([]) == [];
    ImageUrlUnmatched([]);
    assert IndexOfFrom([], DOT_DOT, 0).None?;
    assert graphPath + [] == graphPath;
  }

  /** The banner is computed from a truthy cover property, and from the empty
      URL otherwise, so even a card without a cover image encodes
      `assets://` + graphPath. */
  lemma NoteBannerOf(page: Entity, graphPath: JsString, coverKey: JsString)
    ensures var v := Lookup(page.properties, coverKey);
      (Truthy(v) ==> NoteBanner(page, graphPath, coverKey) == BannerOf(ProcessImageUrl(ToText(v.value)), graphPath)) &&
      (!Truthy(v) ==> NoteBanner(page, graphPath, coverKey) == AssetUrl(graphPath))
  {
    EmptyUrlBanner(graphPath);
  }

  /** Without a cover property, a card fails with a URIError exactly when the
      graph path holds a lone surrogate. */
  lemma FalsyCoverUriError(page: Entity, graphPath: JsString, coverKey: JsString, tagsKey: JsString)
    requires !Truthy(Lookup(page.properties, coverKey))
    ensures var n := Note(page, graphPath, coverKey, tagsKey);
      (n.Fail? && n.error == URIError) <==> HasLoneSurrogate(graphPath)
  {
    NoteBannerOf(page, graphPath, coverKey);
  }

  /** For instance a graph path that is a lone high surrogate fails every
      card without a cover property. */
  lemma LoneSurrogateGraphPath(page: Entity, coverKey: JsString, tagsKey: JsString)
    requires !Truthy(Lookup(page.properties, coverKey))
    ensures Note(page, [0xD800], coverKey, tagsKey) == Fail(URIError)
  {
    var g: JsString := [0xD800];
    assert LoneAt(g, 0);
    FalsyCoverUriError(page, g, coverKey, tagsKey);
  }

  /** A cover property of white space only is truthy, so the image is shown,
      with the banner of the empty URL: the graph's asset directory. */
  lemma WhiteSpaceCover(page: Entity, graphPath: JsString, coverKey: JsString, s: JsString)
    requires Lookup(page.properties, coverKey) == Some(Str(s)) && s != [] && AllTrimmable(s)
    ensures NoteBanner(page, graphPath, coverKey) == AssetUrl(graphPath)
    ensures forall b :: CoverOf(page, b, coverKey) == Image(page.name, b)
  {
    assert Trim(s) == [];
    ImageUrlUnmatched(s);
    EmptyUrlBanner(graphPath);
  }

  /** A URL that starts with `http` is used as it is. */
  lemma BannerRemote(imageUrl: JsString, graphPath: JsString)
    requires StartsWith(imageUrl, HTTP)
    ensures BannerOf(imageUrl, graphPath) == Ok(Remote(imageUrl))
  {
  }

  /** Any other URL becomes the encoded `assets://` + graph path + the URL
      with its first `..` (and only that one) removed. */
  lemma BannerAsset(imageUrl: JsString, graphPath: JsString, k: nat)
    requires !StartsWith(imageUrl, HTTP)
    requires OccursAt(imageUrl, DOT_DOT, k) && forall k' :: 0 <= k' < k ==> !OccursAt(imageUrl, DOT_DOT, k')
    ensures BannerOf(imageUrl, graphPath) == AssetUrl(graphPath + imageUrl[..k] + imageUrl[k + 2..])
  {
    var i := IndexOfFrom(imageUrl, DOT_DOT, 0);
    assert i == Some(k);
    assert ReplaceString(imageUrl, DOT_DOT, []) == imageUrl[..k] + imageUrl[k + 2..];
    AppendAssoc(graphPath, imageUrl[..k], imageUrl[k + 2..]);
  }

  /** Without `..`, the URL is appended unchanged. */
  lemma BannerAssetPlain(imageUrl: JsString, graphPath: JsString)
    requires !StartsWith(imageUrl, HTTP)
    requires forall k :: 0 <= k ==> !OccursAt(imageUrl, DOT_DOT, k)
    ensures BannerOf(imageUrl, graphPath) == AssetUrl(graphPath + imageUrl)
  {
    assert IndexOfFrom(imageUrl, DOT_DOT, 0).None?;
  }

  /** A graph path and a URL made of URI characters only are not changed by
      the encoding. */
  lemma BannerAssetKept(imageUrl: JsString, graphPath: JsString)
    requires !StartsWith(imageUrl, HTTP) && AllKept(graphPath) && AllKept(imageUrl)
    ensures BannerOf(imageUrl, graphPath) == Ok(Asset(ASSETS + graphPath + ReplaceString(imageUrl, DOT_DOT, [])))
  {
    var r := ReplaceString(imageUrl, DOT_DOT, []);
    var path := graphPath + r;
    KeptWithoutDots(imageUrl);
    assert AllKept(path) by {
      assert forall k :: 0 <= k < |r| ==> path[|graphPath| + k] == r[k];
    }
    EncodeKept(path);
    AppendAssoc(ASSETS, graphPath, r);
  }

  /** Removing `..` keeps a string of URI characters one. */
  lemma KeptWithoutDots(u: JsString)
    requires AllKept(u)
    ensures AllKept(ReplaceString(u, DOT_DOT, []))
  {
    match IndexOfFrom(u, DOT_DOT, 0)
    case None =>
    case Some(i) =>
      var a, b := u[..i], u[i + 2..];
      assert ReplaceString(u, DOT_DOT, []) == a + [] + b;
      assert forall k :: 0 <= k < |b| ==> b[k] == u[i + 2 + k];
  }

  /** The tags come from the first truthy of `properties[tags]` and
      `properties.tags`; an array gives its strings, a string is a TypeError,
      and with neither there are no tags. An empty array is truthy, so it
      hides `properties.tags`. */
  lemma TagsChoice(props: Option<Properties>, tagsKey: JsString)
    ensures var r := GalleryTags(props, tagsKey);
      var v1 := Lookup(props, tagsKey); var v2 := Lookup(props, TAGS);
      (Truthy(v1) ==> r == (if v1.value.Strings? then Ok(v1.value.items) else Fail(TypeError))) &&
      (!Truthy(v1) && Truthy(v2) ==> r == (if v2.value.Strings? then Ok(v2.value.items) else Fail(TypeError))) &&
      (!Truthy(v1) && !Truthy(v2) ==> r == Ok([])) &&
      (v1 == Some(Strings([])) ==> r == Ok([]))
  {
  }

  /** Each tag gets one chip, in order, coloured `#` and six lower-case
      hexadecimal digits, each channel between 0x40 and 0xbf. */
  lemma ChipColors(tags: seq<JsString>, i: nat)
    requires i < |tags|
    ensures var c := Chips(tags)[i].color;
      c == DarkerColor(tags[i]) &&
      |c| == 7 && c[0] == NUMBER_SIGN && (forall k :: 1 <= k < 7 ==> IsHexDigit(c[k])) &&
      forall ch :: 0 <= ch < 3 ==> 64 <= HexValue(c[1 + 2 * ch..3 + 2 * ch]) < 192
  {
    DarkerColorShape(tags[i]);
    forall ch | 0 <= ch < 3 ensures 64 <= HexValue(Chips(tags)[i].color[1 + 2 * ch..3 + 2 * ch]) < 192 {
      DarkerColorChannels(tags[i], ch);
    }
  }

  /** Without a truthy `icon` property the card shows 📄; with one it shows
      that property. */
  lemma IconDefault(props: Option<Properties>)
    ensures !Truthy(Lookup(props, ICON)) ==> Icon(props) == Str(PAGE_ICON)
    ensures Truthy(Lookup(props, ICON)) ==> Lookup(props, ICON) == Some(Icon(props))
  {
  }

  /** The title is the entity's own original name when it has one, else that
      of the page the entity belongs to. */
  lemma TitleChoice(page: Entity)
    ensures TruthyString(page.originalName) ==> Title(page) == Ok(page.originalName)
    ensures !TruthyString(page.originalName) && page.page.Some? ==> Title(page) == Ok(page.page.value.originalName)
  {
  }

  /** A card renders exactly when its banner, its title and its tags do; a
      URIError of the banner comes before a TypeError of the title or tags.
      The card then carries its cover, icon, title and one chip per tag. */
  lemma NoteRenders(page: Entity, graphPath: JsString, coverKey: JsString, tagsKey: JsString)
    ensures var n := Note(page, graphPath, coverKey, tagsKey); var b := NoteBanner(page, graphPath, coverKey);
      (n.Ok? <==> b.Ok? && Title(page).Ok? && GalleryTags(page.properties, tagsKey).Ok?) &&
      (b.Fail? ==> n == Fail(URIError)) &&
      (b.Ok? && n.Fail? ==> n.error == TypeError) &&
      (n.Ok? ==> var tags := GalleryTags(page.properties, tagsKey).value;
        n.value.name == page.name &&
        n.value.cover == CoverOf(page, b.value, coverKey) &&
        n.value.title == Title(page).value &&
        n.value.icon == Icon(page.properties) &&
        |n.value.chips| == |tags| &&
        forall i :: 0 <= i < |tags| ==> n.value.chips[i] == Chip(tags[i], DarkerColor(tags[i])))
  {
  }
}
