/** `generate(images)` (generate.py): the text of `index.html`. The page is
    a fixed head with a counter, then the newest sighting as the "Latest"
    card (or a placeholder when there is none), then, when there is more than
    one sighting, a gallery of all the others in list order, and a fixed
    script and footer. A record whose date `strptime` refuses raises, and
    then no page is written at all; that is the `Failure` case here. */
module Page {
  import opened Types
  import opened Text
  import Pattern
  import opened Images
  import opened Formatting
  import opened Anchor
  import opened Quote
  import Sorting

  /** The values one record contributes to the page. */
  datatype View = View(niceDate: string, niceTime: string, encoded: string, anchor: string, location: string)

  /** The values computed for one record, in the order the source computes
      them: `format_date`, `format_time`, `enc`, `make_anchor`. The first
      that raises decides the error. */
  function RecordView(img: Image): Result<View> {
    match FormatDate(img.date)
    case Failure(e) => Failure(e)
    case Success(niceDate) =>
      match FormatTime(img.time)
      case Failure(e) => Failure(e)
      case Success(niceTime) =>
        Success(View(niceDate, niceTime, Enc(img.filename), MakeAnchor(img.date, img.time, img.location), img.location))
  }

  /** The views of a list of records, computed front to back; the first
      record that fails decides the error. */
  function Views(images: seq<Image>): Result<seq<View>> {
    Collect(images, RecordView)
  }

  /** The values `f` computes for each record, front to back, or the error
      of the first record for which it raises. */
  function Collect(images: seq<Image>, f: Image -> Result<View>): Result<seq<View>> {
    if images == [] then Success([]) else Snoc(Collect(images[..|images| - 1], f), f(images[|images| - 1]))
  }

  /** The views so far followed by one more, unless either has failed (the
      earlier failure first). */
  function Snoc(vs: Result<seq<View>>, v: Result<View>): Result<seq<View>> {
    match vs
    case Failure(e) => Failure(e)
    case Success(ws) =>
      match v
      case Failure(e) => Failure(e)
      case Success(w) => Success(ws + [w])
  }

  /** One view followed by the views of the rest, unless either has failed
      (the earlier failure first). */
  function Cons(v: Result<View>, vs: Result<seq<View>>): Result<seq<View>> {
    match v
    case Failure(e) => Failure(e)
    case Success(w) =>
      match vs
      case Failure(e) => Failure(e)
      case Success(ws) => Success([w] + ws)
  }

  /** The pieces the page is made of, in page order. */
  datatype Block =
    | Header(count: nat)
    | Latest(latest: View)
    | Placeholder
    | GalleryOpen
    | Item(item: View)
    | GalleryClose
    | Footer

  /** One gallery item per view, in order. */
  function Items(ws: seq<View>): (bs: seq<Block>)
    ensures |bs| == |ws|
  {
    if ws == [] then [] else Items(ws[..|ws| - 1]) + [Item(ws[|ws| - 1])]
  }

  /** The page's layout for the views of the sorted records. */
  function PageBlocks(vs: seq<View>): seq<Block> {
    [Header(|vs|)]
      + (if vs == [] then [Placeholder] else [Latest(vs[0])])
      + GalleryBlocks(if |vs| > 1 then vs[1..] else [])
      + [Footer]
  }

  /** The gallery section for the views of the earlier records: nothing
      when there are none. */
  function GalleryBlocks(ws: seq<View>): seq<Block> {
    if ws == [] then [] else [GalleryOpen] + Items(ws) + [GalleryClose]
  }

  // ---- the text of each block, as the template writes it ----

  /** The document head, the style sheet and the title, up to the counter. */
  function HeadText(): string {
      "<!DOCTYPE html>\n"
    + "<html lang=\"en\">\n"
    + "<head>\n"
    + "  <meta charset=\"UTF-8\">\n"
    + "  <meta name=\"viewport\" content=\"width=device-width, initial-scale=1.0\">\n"
    + "  <title>Parked like a cunt in Scotland</title>\n"
    + "  <link rel=\"icon\" href=\"data:image/svg+xml,<svg xmlns='http://www.w3.org/2000/svg' viewBox='0 0 100 100'><text y='.9em' font-size='90'>\U{1F697}</text></svg>\">\n"
    + "  <link rel=\"preconnect\" href=\"https://fonts.googleapis.com\">\n"
    + "  <link rel=\"preconnect\" href=\"https://fonts.gstatic.com\" crossorigin>\n"
    + "  <link href=\"https://fonts.googleapis.com/css2?family=Space+Grotesk:wght@400;600;700&display=swap\" rel=\"stylesheet\">\n"
    + "  <style>\n"
    + "    * { margin: 0; padding: 0; box-sizing: border-box; }\n"
    + "\n"
    + "    body {\n"
    + "      font-family: 'Space Grotesk', -apple-system, BlinkMacSystemFont, sans-serif;\n"
    + "      background: #0f0f1a;\n"
    + "      color: #e8e8e8;\n"
    + "      min-height: 100vh;\n"
    + "    }\n"
    + "\n"
    + "    body::before {\n"
    + "      content: '';\n"
    + "      display: block;\n"
    + "      height: 4px;\n"
    + "      background: linear-gradient(90deg, #ff6b6b, #ffd93d, #6bcb77, #4d96ff, #ff6b6b);\n"
    + "      background-size: 200% 100%;\n"
    + "      animation: shimmer 4s linear infinite;\n"
    + "    }\n"
    + "    @keyframes shimmer {\n"
    + "      0%   { background-position: 200% 0; }\n"
    + "      100% { background-position: -200% 0; }\n"
    + "    }\n"
    + "\n"
    + "    .container {\n"
    + "      max-width: 1100px;\n"
    + "      margin: 0 auto;\n"
    + "      padding: 2rem 1.5rem 4rem;\n"
    + "      display: flex;\n"
    + "      flex-direction: column;\n"
    + "      align-items: center;\n"
    + "    }\n"
    + "\n"
    + "    /* \U{2500}\U{2500} title \U{2500}\U{2500} */\n"
    + "    .site-title {\n"
    + "      font-size: 2.2rem;\n"
    + "      font-weight: 700;\n"
    + "      text-align: center;\n"
    + "      margin-bottom: 2.5rem;\n"
    + "      background: linear-gradient(135deg, #ff6b6b, #ffd93d);\n"
    + "      -webkit-background-clip: text;\n"
    + "      -webkit-text-fill-color: transparent;\n"
    + "      background-clip: text;\n"
    + "      line-height: 1.3;\n"
    + "    }\n"
    + "    .site-title .emoji {\n"
    + "      -webkit-text-fill-color: initial;\n"
    + "    }\n"
    + "\n"
    + "    /* \U{2500}\U{2500} counter \U{2500}\U{2500} */\n"
    + "    .counter {\n"
    + "      font-size: 1.1rem;\n"
    + "      font-weight: 600;\n"
    + "      color: #ff6b6b;\n"
    + "      text-align: center;\n"
    + "      margin-top: -1.5rem;\n"
    + "      margin-bottom: 2rem;\n"
    + "      letter-spacing: 1px;\n"
    + "    }\n"
    + "\n"
    + "    /* \U{2500}\U{2500} latest card \U{2500}\U{2500} */\n"
    + "    .latest-card {\n"
    + "      width: 100%;\n"
    + "      max-width: 860px;\n"
    + "      background: #1a1a2e;\n"
    + "      border-radius: 16px;\n"
    + "      overflow: hidden;\n"
    + "      box-shadow: 0 8px 32px rgba(0,0,0,0.4);\n"
    + "      border: 1px solid rgba(255,255,255,0.06);\n"
    + "      position: relative;\n"
    + "    }\n"
    + "\n"
    + "    .latest-header {\n"
    + "      text-align: center;\n"
    + "      padding: 1.5rem 1.5rem 1rem;\n"
    + "    }\n"
    + "\n"
    + "    .latest-label {\n"
    + "      font-size: 0.85rem;\n"
    + "      font-weight: 600;\n"
    + "      text-transform: uppercase;\n"
    + "      letter-spacing: 3px;\n"
    + "      color: #ffd93d;\n"
    + "      margin-bottom: 0.5rem;\n"
    + "    }\n"
    + "\n"
    + "    .latest-meta {\n"
    + "      font-size: 1.15rem;\n"
    + "      color: #c0c0c0;\n"
    + "      font-weight: 400;\n"
    + "    }\n"
    + "    .latest-meta .location,\n"
    + "    .gallery-item .location {\n"
    + "      color: #6bcb77;\n"
    + "      font-weight: 600;\n"
    + "    }\n"
    + "\n"
    + "    .latest-card img {\n"
    + "      width: 100%;\n"
    + "      display: block;\n"
    + "    }\n"
    + "\n"
    + "    /* \U{2500}\U{2500} share button \U{2500}\U{2500} */\n"
    + "    .share-btn {\n"
    + "      display: inline-flex;\n"
    + "      align-items: center;\n"
    + "      gap: 0.35rem;\n"
    + "      margin-top: 0.6rem;\n"
    + "      padding: 0.35rem 0.9rem;\n"
    + "      background: rgba(255,255,255,0.08);\n"
    + "      border: 1px solid rgba(255,255,255,0.12);\n"
    + "      color: #aaa;\n"
    + "      border-radius: 50px;\n"
    + "      font-size: 0.78rem;\n"
    + "      font-family: inherit;\n"
    + "      cursor: pointer;\n"
    + "      transition: all 0.2s;\n"
    + "    }\n"
    + "    .share-btn:hover {\n"
    + "      background: rgba(255,255,255,0.14);\n"
    + "      color: #fff;\n"
    + "    }\n"
    + "    .share-btn.copied {\n"
    + "      background: rgba(107,203,119,0.2);\n"
    + "      border-color: #6bcb77;\n"
    + "      color: #6bcb77;\n"
    + "    }\n"
    + "\n"
    + "    /* \U{2500}\U{2500} divider \U{2500}\U{2500} */\n"
    + "    .divider {\n"
    + "      width: 100%;\n"
    + "      max-width: 860px;\n"
    + "      margin: 3rem 0 2rem;\n"
    + "      border: none;\n"
    + "      height: 1px;\n"
    + "      background: linear-gradient(90deg, transparent, rgba(255,255,255,0.15), transparent);\n"
    + "    }\n"
    + "\n"
    + "    /* \U{2500}\U{2500} section title \U{2500}\U{2500} */\n"
    + "    .section-title {\n"
    + "      font-size: 1.6rem;\n"
    + "      font-weight: 700;\n"
    + "      text-align: center;\n"
    + "      margin-bottom: 1.5rem;\n"
    + "      color: #ffd93d;\n"
    + "    }\n"
    + "\n"
    + "    /* \U{2500}\U{2500} gallery grid \U{2500}\U{2500} */\n"
    + "    .gallery {\n"
    + "      width: 100%;\n"
    + "      display: grid;\n"
    + "      grid-template-columns: repeat(3, 1fr);\n"
    + "      gap: 1.5rem;\n"
    + "    }\n"
    + "\n"
    + "    .gallery-item {\n"
    + "      background: #1a1a2e;\n"
    + "      border-radius: 12px;\n"
    + "      overflow: hidden;\n"
    + "      box-shadow: 0 4px 16px rgba(0,0,0,0.3);\n"
    + "      border: 1px solid rgba(255,255,255,0.05);\n"
    + "      transition: transform 0.2s;\n"
    + "      display: flex;\n"
    + "      flex-direction: column;\n"
    + "    }\n"
    + "    .gallery-item:hover {\n"
    + "      transform: translateY(-3px);\n"
    + "    }\n"
    + "\n"
    + "    .gallery-item .meta {\n"
    + "      text-align: center;\n"
    + "      padding: 0.8rem 0.6rem 0.5rem;\n"
    + "    }\n"
    + "    .gallery-item .meta .date {\n"
    + "      font-size: 0.8rem;\n"
    + "      color: #aaa;\n"
    + "      display: block;\n"
    + "      margin-bottom: 0.15rem;\n"
    + "    }\n"
    + "    .gallery-item .meta .location {\n"
    + "      font-size: 0.85rem;\n"
    + "    }\n"
    + "\n"
    + "    .gallery-item img {\n"
    + "      width: 100%;\n"
    + "      display: block;\n"
    + "      flex: 1;\n"
    + "      object-fit: cover;\n"
    + "    }\n"
    + "\n"
    + "    .empty {\n"
    + "      text-align: center;\n"
    + "      color: #666;\n"
    + "      font-style: italic;\n"
    + "      margin-top: 3rem;\n"
    + "    }\n"
    + "\n"
    + "    /* \U{2500}\U{2500} scroll target offset \U{2500}\U{2500} */\n"
    + "    .anchor-target {\n"
    + "      scroll-margin-top: 1.5rem;\n"
    + "    }\n"
    + "\n"
    + "    /* \U{2500}\U{2500} responsive \U{2500}\U{2500} */\n"
    + "    @media (max-width: 900px) {\n"
    + "      .gallery { grid-template-columns: repeat(2, 1fr); gap: 1rem; }\n"
    + "    }\n"
    + "    @media (max-width: 600px) {\n"
    + "      .site-title { font-size: 1.5rem; }\n"
    + "      .container { padding: 1.2rem 1rem 3rem; }\n"
    + "      .latest-header { padding: 1rem 1rem 0.75rem; }\n"
    + "      .latest-meta { font-size: 1rem; }\n"
    + "      .gallery { grid-template-columns: 1fr; gap: 1rem; }\n"
    + "      .section-title { font-size: 1.3rem; }\n"
    + "    }\n"
    + "  </style>\n"
    + "</head>\n"
    + "<body>\n"
    + "  <div class=\"container\">\n"
    + "    <h1 class=\"site-title\"><span class=\"emoji\">\U{1F697}</span> Parked like a cunt in Scotland</h1>\n"
  }

  /** `{len(images)} Total Cunt{"s" if len(images) != 1 else ""}` */
  function CounterText(n: nat): string {
    "    <div class=\"counter\">" + NatToString(n) + " Total Cunt" + (if n != 1 then "s" else "") + "</div>\n"
  }

  function LatestText(v: View): string {
      "\n"
    + "    <div class=\"latest-card anchor-target\" id=\"" + v.anchor + "\">\n"
    + "      <div class=\"latest-header\">\n"
    + "        <div class=\"latest-label\">Latest</div>\n"
    + "        <div class=\"latest-meta\">" + v.niceDate + " at " + v.niceTime + " in <span class=\"location\">" + v.location + "</span></div>\n"
    + "        <button class=\"share-btn\" onclick=\"shareLink('" + v.anchor + "')\">\n"
    + "          <svg width=\"14\" height=\"14\" viewBox=\"0 0 24 24\" fill=\"none\" stroke=\"currentColor\" stroke-width=\"2\" stroke-linecap=\"round\" stroke-linejoin=\"round\"><path d=\"M10 13a5 5 0 0 0 7.54.54l3-3a5 5 0 0 0-7.07-7.07l-1.72 1.71\"/><path d=\"M14 11a5 5 0 0 0-7.54-.54l-3 3a5 5 0 0 0 7.07 7.07l1.71-1.71\"/></svg>\n"
    + "          Share\n"
    + "        </button>\n"
    + "      </div>\n"
    + "      <img src=\"cunts/" + v.encoded + "\" alt=\"Parked like a cunt in " + v.location + "\">\n"
    + "    </div>\n"
  }

  function PlaceholderText(): string {
    "    <p class=\"empty\">No cunts spotted yet. Stay tuned.</p>\n"
  }

  function GalleryOpenText(): string {
      "\n"
    + "    <hr class=\"divider\">\n"
    + "    <h2 class=\"section-title\">Previous Cunts</h2>\n"
    + "    <div class=\"gallery\">\n"
  }

  function ItemText(v: View): string {
      "      <div class=\"gallery-item anchor-target\" id=\"" + v.anchor + "\">\n"
    + "        <div class=\"meta\">\n"
    + "          <span class=\"date\">" + v.niceDate + " at " + v.niceTime + "</span>\n"
    + "          <span class=\"location\">" + v.location + "</span>\n"
    + "          <button class=\"share-btn\" onclick=\"shareLink('" + v.anchor + "')\">\n"
    + "            <svg width=\"12\" height=\"12\" viewBox=\"0 0 24 24\" fill=\"none\" stroke=\"currentColor\" stroke-width=\"2\" stroke-linecap=\"round\" stroke-linejoin=\"round\"><path d=\"M10 13a5 5 0 0 0 7.54.54l3-3a5 5 0 0 0-7.07-7.07l-1.72 1.71\"/><path d=\"M14 11a5 5 0 0 0-7.54-.54l-3 3a5 5 0 0 0 7.07 7.07l1.71-1.71\"/></svg>\n"
    + "            Share\n"
    + "          </button>\n"
    + "        </div>\n"
    + "        <img src=\"cunts/" + v.encoded + "\" alt=\"Parked like a cunt in " + v.location + "\">\n"
    + "      </div>\n"
  }

  function GalleryCloseText(): string {
    "    </div>\n"
  }

  /** The share script and the end of the document. */
  function FooterText(): string {
      "\n"
    + "    <script>\n"
    + "      function shareLink(anchor) {\n"
    + "        const url = window.location.origin + window.location.pathname + '#' + anchor;\n"
    + "        navigator.clipboard.writeText(url).then(() => {\n"
    + "          const btn = document.querySelector('#' + CSS.escape(anchor) + ' .share-btn');\n"
    + "          btn.classList.add('copied');\n"
    + "          btn.innerHTML = `\n"
    + "            <svg width=\"14\" height=\"14\" viewBox=\"0 0 24 24\" fill=\"none\" stroke=\"currentColor\" stroke-width=\"2\" stroke-linecap=\"round\" stroke-linejoin=\"round\"><polyline points=\"20 6 9 17 4 12\"/></svg>\n"
    + "            Copied!`;\n"
    + "          setTimeout(() => {\n"
    + "            btn.classList.remove('copied');\n"
    + "            btn.innerHTML = `\n"
    + "              <svg width=\"14\" height=\"14\" viewBox=\"0 0 24 24\" fill=\"none\" stroke=\"currentColor\" stroke-width=\"2\" stroke-linecap=\"round\" stroke-linejoin=\"round\"><path d=\"M10 13a5 5 0 0 0 7.54.54l3-3a5 5 0 0 0-7.07-7.07l-1.72 1.71\"/><path d=\"M14 11a5 5 0 0 0-7.54-.54l-3 3a5 5 0 0 0 7.07 7.07l1.71-1.71\"/></svg>\n"
    + "              Share`;\n"
    + "          }, 2000);\n"
    + "        });\n"
    + "      }\n"
    + "    </script>\n"
    + "  </div>\n"
    + "</body>\n"
    + "</html>\n"
  }

  function BlockText(b: Block): string {
    match b
    case Header(n) => HeadText() + CounterText(n)
    case Latest(v) => LatestText(v)
    case Placeholder => PlaceholderText()
    case GalleryOpen => GalleryOpenText()
    case Item(v) => ItemText(v)
    case GalleryClose => GalleryCloseText()
    case Footer => FooterText()
  }

  /** The text of a sequence of blocks, one after the other, each written by
      `text`. */
  function Render(bs: seq<Block>, text: Block -> string): string {
    if bs == [] then [] else Render(bs[..|bs| - 1], text) + text(bs[|bs| - 1])
  }

  /** The page for the given records with each block written by `text`, or
      the error of the first record that cannot be formatted. */
  function Assembled(images: seq<Image>, view: Image -> Result<View>, text: Block -> string): Result<string> {
    match Collect(images, view)
    case Failure(e) => Failure(e)
    case Success(vs) => Success(Render(PageBlocks(vs), text))
  }

  /** What `generate` writes for the given records, or the error it raises. */
  function IndexHtml(images: seq<Image>): Result<string> {
    Assembled(images, RecordView, BlockText)
  }

  // ---- generate ----

  /** `generate(images)`: the page text built piece by piece as the source
      does, stopping at the first record whose date or time cannot be
      formatted. `view` computes the values shown for one record and `text`
      writes each piece; the generator's own are `RecordView` and `BlockText`,
      and the proof of the assembly holds for any of them. Writing the file and the message printed after
      it are not modelled. */
  method Generate(images: seq<Image>, view: Image -> Result<View>, text: Block -> string) returns (page: Result<string>)
    ensures page == Assembled(images, view, text)
  {
    AssembledParts(images, view, text);
    var html := text(Header(|images|));
    if |images| > 0 {
      var latest := view(images[0]);
      if latest.Failure? {
        return Failure(latest.error);
      }
      html := html + text(Latest(latest.value));
    } else {
      html := html + text(Placeholder);
    }
    var previous := if |images| > 1 then images[1..] else [];
    assert images != [] ==> previous == images[1..];
    var gallery := GallerySection(previous, view, text);
    if gallery.Failure? {
      return Failure(gallery.error);
    }
    html := html + gallery.value;
    html := html + text(Footer);
    page := Success(html);
  }

  /** The gallery section (`if previous: ...`): when there are earlier
      records, the divider, one item per record in list order and the
      closing tag; the first record whose values cannot be computed stops
      it. The section is appended to the page by `Generate`. */
  method GallerySection(previous: seq<Image>, view: Image -> Result<View>, text: Block -> string)
    returns (r: Result<string>)
    ensures r == match Collect(previous, view)
      case Failure(e) => Failure(e)
      case Success(ws) => Success(Render(GalleryBlocks(ws), text))
  {
    if previous == [] {
      return Success([]);
    }
    var section := text(GalleryOpen);
    ghost var ws: seq<View> := [];
    GalleryTextStart(text);
    assert previous[..0] == [];
    for j := 0 to |previous|
      invariant Collect(previous[..j], view) == Success(ws) && |ws| == j
      invariant section == Render([GalleryOpen] + Items(ws), text)
    {
      var item := view(previous[j]);
      if item.Failure? {
        CollectStep(previous, j, view);
        CollectPrefixFailure(previous, j + 1, view);
        return Failure(item.error);
      }
      CollectStep(previous, j, view);
      GalleryTextStep(ws, item.value, text);
      section := section + text(Item(item.value));
      ws := ws + [item.value];
    }
    assert previous[..|previous|] == previous;
    GalleryTextEnd(ws, text);
    section := section + text(GalleryClose);
    return Success(section);
  }

  /** `__main__`: parse the directory's entry names, then generate the page. */
  method BuildSite(names: seq<string>) returns (page: Result<string>)
    ensures page == IndexHtml(Sorting.SortDesc(Accepted(names), SortKey))
  {
    var images := ParseImages(names);
    page := Generate(images, RecordView, BlockText);
  }

  // ---- helper lemmas for the loop ----

  lemma RenderSnoc(bs: seq<Block>, b: Block, text: Block -> string)
    ensures Render(bs + [b], text) == Render(bs, text) + text(b)
  {
    assert (bs + [b])[..|bs|] == bs;
  }

  /** Once a prefix of the records fails, the whole list fails with the same error. */
  lemma {:induction false} CollectPrefixFailure(s: seq<Image>, k: nat, f: Image -> Result<View>)
    requires k <= |s| && Collect(s[..k], f).Failure?
    ensures Collect(s, f) == Collect(s[..k], f)
    decreases |s| - k
  {
    if k < |s| {
      assert s[..k + 1][..k] == s[..k];
      assert Collect(s[..k + 1], f) == Collect(s[..k], f);
      CollectPrefixFailure(s, k + 1, f);
    } else {
      assert s[..k] == s;
    }
  }

  lemma ConsSnoc(a: Result<View>, vs: Result<seq<View>>, b: Result<View>)
    ensures Snoc(Cons(a, vs), b) == Cons(a, Snoc(vs, b))
  {
    if a.Success? && vs.Success? && b.Success? {
      assert [a.value] + vs.value + [b.value] == [a.value] + (vs.value + [b.value]);
    }
  }

  /** The views of a non-empty list: the first record, then the rest. */
  lemma {:induction false} CollectSplit(s: seq<Image>, f: Image -> Result<View>)
    requires s != []
    ensures Collect(s, f) == Cons(f(s[0]), Collect(s[1..], f))
    decreases |s|
  {
    if |s| == 1 {
      assert s[..0] == [] && s[1..] == [];
      var r := f(s[0]);
      if r.Success? {
        assert [] + [r.value] == [r.value] + [];
      }
    } else {
      var p := s[..|s| - 1];
      CollectSplit(p, f);
      assert p[0] == s[0];
      assert p[1..] == s[1..][..|s[1..]| - 1];
      assert s[1..][|s[1..]| - 1] == s[|s| - 1];
      ConsSnoc(f(s[0]), Collect(p[1..], f), f(s[|s| - 1]));
    }
  }

  lemma CollectStep(s: seq<Image>, j: nat, f: Image -> Result<View>)
    requires j < |s|
    ensures Collect(s[..j + 1], f) == Snoc(Collect(s[..j], f), f(s[j]))
  {
    assert s[..j + 1][..j] == s[..j];
  }

  lemma {:induction false} CollectLength(s: seq<Image>, f: Image -> Result<View>)
    ensures Collect(s, f).Success? ==> |Collect(s, f).value| == |s|
  {
    if s != [] {
      CollectLength(s[..|s| - 1], f);
    }
  }


  lemma GalleryTextStart(text: Block -> string)
    ensures Render([GalleryOpen] + Items([]), text) == text(GalleryOpen)
  {
    assert [GalleryOpen] + Items([]) == [GalleryOpen];
    RenderSnoc([], GalleryOpen, text);
    assert [] + [GalleryOpen] == [GalleryOpen];
  }

  lemma GalleryTextStep(ws: seq<View>, v: View, text: Block -> string)
    ensures Render([GalleryOpen] + Items(ws + [v]), text) == Render([GalleryOpen] + Items(ws), text) + text(Item(v))
  {
    ItemsSnoc(ws, v);
    assert [GalleryOpen] + Items(ws + [v]) == ([GalleryOpen] + Items(ws)) + [Item(v)];
    RenderSnoc([GalleryOpen] + Items(ws), Item(v), text);
  }

  lemma GalleryTextEnd(ws: seq<View>, text: Block -> string)
    requires ws != []
    ensures Render(GalleryBlocks(ws), text) == Render([GalleryOpen] + Items(ws), text) + text(GalleryClose)
  {
    RenderSnoc([GalleryOpen] + Items(ws), GalleryClose, text);
  }

  /** The page of `Assembled` in the pieces `generate` writes one after the
      other. */
  lemma AssembledParts(images: seq<Image>, view: Image -> Result<View>, text: Block -> string)
    ensures images == [] ==>
      Assembled(images, view, text) == Success(text(Header(0)) + text(Placeholder) + [] + text(Footer))
    ensures images != [] ==>
      Assembled(images, view, text) ==
        match view(images[0])
        case Failure(e) => Failure(e)
        case Success(v) =>
          match Collect(images[1..], view)
          case Failure(e) => Failure(e)
          case Success(ws) =>
            Success(text(Header(|images|)) + text(Latest(v)) + Render(GalleryBlocks(ws), text) + text(Footer))
  {
    if images == [] {
      PageText([], text);
      RenderPair(Header(0), Placeholder, text);
      assert GalleryBlocks([]) == [];
    } else {
      CollectSplit(images, view);
      if view(images[0]).Success? && Collect(images[1..], view).Success? {
        var v, ws := view(images[0]).value, Collect(images[1..], view).value;
        var vs := [v] + ws;
        assert Collect(images, view) == Success(vs);
        CollectLength(images[1..], view);
        assert vs[0] == v && vs[1..] == ws && |vs| == |images|;
        assert (if |vs| > 1 then vs[1..] else []) == ws;
        PageText(vs, text);
        RenderPair(Header(|images|), Latest(v), text);
      }
    }
  }

  lemma RenderPair(a: Block, b: Block, text: Block -> string)
    ensures Render([a, b], text) == text(a) + text(b)
  {
    RenderSnoc([a], b, text);
    RenderSnoc([], a, text);
    assert [a] + [b] == [a, b] && [] + [a] == [a];
  }

  lemma {:induction false} RenderAppend(a: seq<Block>, b: seq<Block>, text: Block -> string)
    ensures Render(a + b, text) == Render(a, text) + Render(b, text)
    decreases |b|
  {
    if b == [] {
      assert a + b == a;
    } else {
      var c := b[..|b| - 1];
      RenderAppend(a, c, text);
      assert (a + b)[..|a + b| - 1] == a + c;
    }
  }

  /** The page text in the three parts `generate` writes: the head with the
      latest card or the placeholder, the gallery section, and the footer. */
  lemma PageText(vs: seq<View>, text: Block -> string)
    ensures Render(PageBlocks(vs), text)
      == Render([Header(|vs|), if vs == [] then Placeholder else Latest(vs[0])], text)
         + Render(GalleryBlocks(if |vs| > 1 then vs[1..] else []), text) + text(Footer)
  {
    var top := [Header(|vs|), if vs == [] then Placeholder else Latest(vs[0])];
    var g := GalleryBlocks(if |vs| > 1 then vs[1..] else []);
    assert PageBlocks(vs) == (top + g) + [Footer];
    RenderSnoc(top + g, Footer, text);
    RenderAppend(top, g, text);
  }

  lemma ItemsSnoc(ws: seq<View>, v: View)
    ensures Items(ws + [v]) == Items(ws) + [Item(v)]
  {
    assert (ws + [v])[..|ws|] == ws;
  }

  // ---- what the page shows ----

  /** The views a sequence of blocks shows, in page order: the latest card's
      and the gallery items'. */
  function Shown(bs: seq<Block>): seq<View> {
    if bs == [] then []
    else Shown(bs[..|bs| - 1]) + BlockViews(bs[|bs| - 1])
  }

  function BlockViews(b: Block): seq<View> {
    match b case Latest(v) => [v] case Item(v) => [v] case _ => []
  }

  function BlockGallery(b: Block): seq<View> {
    match b case Item(v) => [v] case _ => []
  }

  /** The views of the gallery items, in page order. */
  function Gallery(bs: seq<Block>): seq<View> {
    if bs == [] then []
    else Gallery(bs[..|bs| - 1]) + BlockGallery(bs[|bs| - 1])
  }

  lemma ShownAppend(a: seq<Block>, b: seq<Block>)
    ensures Shown(a + b) == Shown(a) + Shown(b)
    ensures Gallery(a + b) == Gallery(a) + Gallery(b)
  {
    ShownConcat(a, b);
    GalleryConcat(a, b);
  }

  lemma {:induction false} ShownConcat(a: seq<Block>, b: seq<Block>)
    ensures Shown(a + b) == Shown(a) + Shown(b)
    decreases |b|
  {
    if b == [] {
      assert a + b == a;
    } else {
      var c, x := b[..|b| - 1], b[|b| - 1];
      ShownConcat(a, c);
      assert (a + b)[..|a + b| - 1] == a + c && (a + b)[|a + b| - 1] == x;
      calc {
        Shown(a + b);
        Shown(a + c) + BlockViews(x);
        (Shown(a) + Shown(c)) + BlockViews(x);
        { AppendAssoc(Shown(a), Shown(c), BlockViews(x)); }
        Shown(a) + (Shown(c) + BlockViews(x));
      }
    }
  }

  lemma {:induction false} GalleryConcat(a: seq<Block>, b: seq<Block>)
    ensures Gallery(a + b) == Gallery(a) + Gallery(b)
    decreases |b|
  {
    if b == [] {
      assert a + b == a;
    } else {
      var c, x := b[..|b| - 1], b[|b| - 1];
      GalleryConcat(a, c);
      assert (a + b)[..|a + b| - 1] == a + c && (a + b)[|a + b| - 1] == x;
      calc {
        Gallery(a + b);
        Gallery(a + c) + BlockGallery(x);
        (Gallery(a) + Gallery(c)) + BlockGallery(x);
        { AppendAssoc(Gallery(a), Gallery(c), BlockGallery(x)); }
        Gallery(a) + (Gallery(c) + BlockGallery(x));
      }
    }
  }

  lemma {:induction false} ShownItems(ws: seq<View>)
    ensures Shown(Items(ws)) == ws && Gallery(Items(ws)) == ws
  {
    if ws != [] {
      var p := ws[..|ws| - 1];
      ShownItems(p);
      ShownAppend(Items(p), [Item(ws[|ws| - 1])]);
      assert [Item(ws[|ws| - 1])][..0] == [];
      assert ws == p + [ws[|ws| - 1]];
    }
  }

  lemma ShownOne(b: Block)
    ensures Shown([b]) == match b case Latest(v) => [v] case Item(v) => [v] case _ => []
    ensures Gallery([b]) == match b case Item(v) => [v] case _ => []
  {
    assert [b][..0] == [];
  }

  /** The layout `generate` produces for n records: the counter first and
      the footer last; the placeholder exactly when n = 0; the newest record
      as the latest card when n >= 1; the divider and the gallery's closing
      tag exactly when n >= 2; n + 4 blocks then, and 3 otherwise. */
  lemma PageShape(vs: seq<View>)
    ensures var bs := PageBlocks(vs);
      && bs[0] == Header(|vs|) && bs[|bs| - 1] == Footer
      && (Placeholder in bs <==> vs == [])
      && (vs != [] ==> bs[1] == Latest(vs[0]))
      && (GalleryOpen in bs <==> |vs| > 1)
      && (GalleryClose in bs <==> |vs| > 1)
      && |bs| == (if |vs| > 1 then |vs| + 4 else 3)
  {
    var a := [Header(|vs|)];
    var b := if vs == [] then [Placeholder] else [Latest(vs[0])];
    var c := if |vs| > 1 then [GalleryOpen] + Items(vs[1..]) + [GalleryClose] else [];
    var bs := PageBlocks(vs);
    assert bs == a + b + c + [Footer];
    assert bs[0] == a[0] && bs[1] == b[0];
    if |vs| > 1 {
      ItemsOnly(vs[1..]);
      assert Placeholder !in c && GalleryOpen in c && GalleryClose in c;
    }
  }

  /** Every record is shown exactly once, in list order: the first as the
      latest card and the others, in order, as the gallery. */
  lemma PageShown(vs: seq<View>)
    ensures Shown(PageBlocks(vs)) == vs
    ensures Gallery(PageBlocks(vs)) == if |vs| > 1 then vs[1..] else []
  {
    PageViews(vs);
    PageGallery(vs);
  }

  lemma PageViews(vs: seq<View>)
    ensures Shown(PageBlocks(vs)) == vs
  {
    var top := if vs == [] then Placeholder else Latest(vs[0]);
    var rest := if |vs| > 1 then vs[1..] else [];
    assert PageBlocks(vs) == [Header(|vs|)] + [top] + GalleryBlocks(rest) + [Footer];
    LayoutShown(Header(|vs|), top, rest);
    if vs != [] {
      assert vs == [vs[0]] + rest;
    }
  }

  lemma PageGallery(vs: seq<View>)
    ensures Gallery(PageBlocks(vs)) == if |vs| > 1 then vs[1..] else []
  {
    var top := if vs == [] then Placeholder else Latest(vs[0]);
    var rest := if |vs| > 1 then vs[1..] else [];
    assert PageBlocks(vs) == [Header(|vs|)] + [top] + GalleryBlocks(rest) + [Footer];
    LayoutGallery(Header(|vs|), top, rest);
  }

  lemma LayoutShown(h: Block, top: Block, ws: seq<View>)
    requires h.Header? && (top.Placeholder? || top.Latest?)
    ensures Shown([h] + [top] + GalleryBlocks(ws) + [Footer]) == (if top.Latest? then [top.latest] else []) + ws
  {
    ShownFour([h], [top], GalleryBlocks(ws), [Footer]);
    ShownOne(h);
    ShownOne(top);
    ShownOne(Footer);
    ShownGallery(ws);
  }

  lemma LayoutGallery(h: Block, top: Block, ws: seq<View>)
    requires h.Header? && (top.Placeholder? || top.Latest?)
    ensures Gallery([h] + [top] + GalleryBlocks(ws) + [Footer]) == ws
  {
    ShownFour([h], [top], GalleryBlocks(ws), [Footer]);
    ShownOne(h);
    ShownOne(top);
    ShownOne(Footer);
    ShownGallery(ws);
  }

  /** The gallery section shows its views, in order. */
  lemma ShownGallery(ws: seq<View>)
    ensures Shown(GalleryBlocks(ws)) == ws && Gallery(GalleryBlocks(ws)) == ws
  {
    if ws != [] {
      ShownItems(ws);
      ShownOne(GalleryOpen);
      ShownOne(GalleryClose);
      ShownAppend([GalleryOpen], Items(ws));
      ShownAppend([GalleryOpen] + Items(ws), [GalleryClose]);
    }
  }

  lemma ShownFour(a: seq<Block>, b: seq<Block>, c: seq<Block>, d: seq<Block>)
    ensures Shown(a + b + c + d) == Shown(a) + Shown(b) + Shown(c) + Shown(d)
    ensures Gallery(a + b + c + d) == Gallery(a) + Gallery(b) + Gallery(c) + Gallery(d)
  {
    ShownAppend(a, b);
    ShownAppend(a + b, c);
    ShownAppend(a + b + c, d);
  }

  lemma {:induction false} ItemsOnly(ws: seq<View>)
    ensures forall b :: b in Items(ws) ==> b.Item?
  {
    if ws != [] {
      ItemsOnly(ws[..|ws| - 1]);
    }
  }

  /** The layout in terms of the records: with two or more of them, the
      gallery holds exactly the views of `images[1:]`, in that order; with
      fewer there is no gallery. */
  lemma GalleryOfRecords(images: seq<Image>, view: Image -> Result<View>)
    requires Collect(images, view).Success?
    ensures var g := Gallery(PageBlocks(Collect(images, view).value));
      && |g| == (if |images| > 1 then |images| - 1 else 0)
      && forall i :: 0 <= i < |g| ==> view(images[i + 1]).Success? && g[i] == view(images[i + 1]).value
  {
    CollectSucceeds(images, view);
    PageShown(Collect(images, view).value);
  }

  /** The counter line read back: whether what follows the opening tag is a
      decimal number, then " Total Cunts" or " Total Cunt", then the closing
      tag. */
  const CounterOpen: string := "    <div class=\"counter\">"

  function ReadCounter(s: string): Option<(nat, bool)> {
    if |s| < |CounterOpen| || s[..|CounterOpen|] != CounterOpen then None
    else
      var rest := s[|CounterOpen|..];
      var k := Leading(rest, IsDigit);
      var tail := rest[k..];
      if k == 0 then None
      else if tail == " Total Cunts</div>\n" then Some((DigitsValue(rest[..k]), true))
      else if tail == " Total Cunt</div>\n" then Some((DigitsValue(rest[..k]), false))
      else None
  }

  /** The counter shows the number of records in decimal, and the plural "s"
      exactly when that number is not 1. */
  lemma CounterShows(n: nat)
    ensures ReadCounter(CounterText(n)) == Some((n, n != 1))
  {
    var d := NatToString(n);
    var tail := CounterTail(n != 1);
    assert CounterText(n) == CounterOpen + (d + tail);
    ReadCounterOf(d, tail, n != 1);
  }

  /** The words after the number. */
  function CounterTail(plural: bool): string {
    " Total Cunt" + (if plural then "s" else "") + "</div>\n"
  }

  lemma ReadCounterOf(d: string, tail: string, plural: bool)
    requires |d| >= 1 && AllDigits(d) && tail == CounterTail(plural)
    ensures ReadCounter(CounterOpen + (d + tail)) == Some((DigitsValue(d), plural))
  {
    var s := CounterOpen + (d + tail);
    assert s[..|CounterOpen|] == CounterOpen;
    var rest := s[|CounterOpen|..];
    assert rest == d + tail;
    LeadingDigits(d, tail);
    assert rest[..|d|] == d && rest[|d|..] == tail;
    CounterTailWords(plural);
  }

  lemma CounterTailWords(plural: bool)
    ensures (CounterTail(plural) == " Total Cunts</div>\n") == plural
    ensures !plural ==> CounterTail(plural) == " Total Cunt</div>\n"
  {
    if !plural {
      assert CounterTail(plural)[11] == '<' && " Total Cunts</div>\n"[11] == 's';
    }
  }

  lemma LeadingDigits(d: string, tail: string)
    requires AllDigits(d) && tail != [] && !IsDigit(tail[0])
    ensures Leading(d + tail, IsDigit) == |d|
  {
    assert forall k :: 0 <= k < |d| ==> (d + tail)[k] == d[k];
    assert (d + tail)[|d|] == tail[0];
  }

  // ---- when the page can be generated ----

  /** Record `i` is the first whose values cannot be computed. */
  predicate FirstFailure(s: seq<Image>, f: Image -> Result<View>, i: nat) {
    i < |s| && f(s[i]).Failure? && forall k :: 0 <= k < i ==> f(s[k]).Success?
  }

  /** Collecting the views succeeds exactly when every record's view does,
      and then holds them in list order. */
  lemma {:induction false} CollectSucceeds(s: seq<Image>, f: Image -> Result<View>)
    ensures Collect(s, f).Success? <==> forall i :: 0 <= i < |s| ==> f(s[i]).Success?
    ensures Collect(s, f).Success? ==>
      |Collect(s, f).value| == |s| && forall i :: 0 <= i < |s| ==> Collect(s, f).value[i] == f(s[i]).value
  {
    if s != [] {
      var p := s[..|s| - 1];
      CollectSucceeds(p, f);
      assert forall i :: 0 <= i < |p| ==> p[i] == s[i];
    }
  }

  /** When collecting the views fails, its error is that of the first record
      that fails. */
  lemma {:induction false} CollectFails(s: seq<Image>, f: Image -> Result<View>)
    ensures Collect(s, f).Failure? ==>
      exists i: nat :: FirstFailure(s, f, i) && Collect(s, f).error == f(s[i]).error
  {
    if s != [] {
      var p := s[..|s| - 1];
      CollectFails(p, f);
      assert forall i :: 0 <= i < |p| ==> p[i] == s[i];
      if Collect(p, f).Failure? {
        var i: nat :| FirstFailure(p, f, i) && Collect(p, f).error == f(p[i]).error;
        assert FirstFailure(s, f, i);
      } else if f(s[|s| - 1]).Failure? {
        CollectSucceeds(p, f);
        assert FirstFailure(s, f, |s| - 1);
      }
    }
  }

  /** The page is produced exactly when the views are, whatever the template. */
  lemma AssembledOutcome(images: seq<Image>, view: Image -> Result<View>, text: Block -> string)
    ensures Assembled(images, view, text).Success? <==> Collect(images, view).Success?
    ensures Assembled(images, view, text).Failure? ==> Assembled(images, view, text).error == Collect(images, view).error
  {
  }

  /** The values shown for a record whose date and time have the pattern's
      shape: they can be computed exactly when the date is a calendar date
      (otherwise `strptime` raises `ValueError`), and then the date reads
      "<day> <Month> <year>", the time "HH:MM", the encoded name decodes back
      to the file name, and the anchor starts with "<date>-HHMMSS". */
  lemma RecordViewOfRecord(img: Image)
    requires Pattern.IsDate(img.date) && Pattern.IsTime(img.time)
    ensures RecordView(img).Success? <==> ValidDate(YearOf(img.date), MonthOf(img.date), DayOf(img.date))
    ensures RecordView(img).Failure? ==> RecordView(img).error == ValueError
    ensures RecordView(img).Success? ==>
      var v := RecordView(img).value;
      && v.niceDate == NatToString(DayOf(img.date)) + " " + MonthNames[MonthOf(img.date) - 1] + " " + img.date[..4]
      && v.niceTime == img.time[..2] + ":" + img.time[3..5]
      && Unquote(v.encoded) == Some(img.filename)
      && |v.anchor| >= 17
      && v.anchor[..17] == img.date + "-" + img.time[..2] + img.time[3..5] + img.time[6..8]
      && v.location == img.location
  {
    FormatDateOfPatternDate(img.date);
    FormatTimeOfPatternTime(img.time);
    EncRoundTrip(img.filename);
    AnchorPrefix(img.date, img.time, img.location);
  }

  /** A record whose date `strptime` accepts. */
  predicate CalendarDate(img: Image) {
    Pattern.IsDate(img.date) && ValidDate(YearOf(img.date), MonthOf(img.date), DayOf(img.date))
  }

  /** The views of the sorted records are computed exactly when every
      accepted name carries a calendar date, and then there is one per
      accepted name; otherwise the error is `ValueError`. */
  lemma BuildViews(names: seq<string>)
    ensures var images := Sorting.SortDesc(Accepted(names), SortKey);
      Views(images).Success? <==> forall img :: img in Accepted(names) ==> CalendarDate(img)
    ensures var images := Sorting.SortDesc(Accepted(names), SortKey);
      Views(images).Failure? ==> Views(images).error == ValueError
    ensures var images := Sorting.SortDesc(Accepted(names), SortKey);
      Views(images).Success? ==> |Views(images).value| == |Accepted(names)|
  {
    var accepted := Accepted(names);
    var images := Sorting.SortDesc(accepted, SortKey);
    Sorting.SortDescCorrect(accepted, SortKey);
    assert |images| == |accepted| by {
      assert |multiset(images)| == |multiset(accepted)|;
    }
    forall img ensures img in images <==> img in accepted {
      assert img in images <==> img in multiset(images);
    }
    forall i | 0 <= i < |images|
      ensures CalendarDate(images[i]) <==> RecordView(images[i]).Success?
      ensures RecordView(images[i]).Failure? ==> RecordView(images[i]).error == ValueError
    {
      AcceptedFields(names, images[i]);
      RecordViewOfRecord(images[i]);
    }
    CollectSucceeds(images, RecordView);
    CollectFails(images, RecordView);
    if Views(images).Success? {
      forall img | img in accepted ensures CalendarDate(img) {
        var i :| 0 <= i < |images| && images[i] == img;
      }
    } else {
      var i: nat :| FirstFailure(images, RecordView, i) && Views(images).error == RecordView(images[i]).error;
      assert !CalendarDate(images[i]);
      assert images[i] in accepted;
    }
  }

  /** The site is generated exactly when every accepted name carries a
      calendar date; otherwise generation stops with `ValueError` and no page
      is produced. This holds whatever the template; `IndexHtml` is the case
      `text == BlockText`. */
  lemma BuildSucceeds(names: seq<string>, text: Block -> string)
    ensures var images := Sorting.SortDesc(Accepted(names), SortKey);
      Assembled(images, RecordView, text).Success? <==> forall img :: img in Accepted(names) ==> CalendarDate(img)
    ensures var images := Sorting.SortDesc(Accepted(names), SortKey);
      Assembled(images, RecordView, text).Failure? ==> Assembled(images, RecordView, text).error == ValueError
  {
    var images := Sorting.SortDesc(Accepted(names), SortKey);
    BuildViews(names);
    AssembledOutcome(images, RecordView, text);
  }
}
