/** The three operations of src/books.ts over a caller-supplied fetch:
    getAllBooks, getImagesByBook and getRandomImageByBook. Each returns the
    request it sent (if any) together with its outcome. */
module Books {
  import opened Types
  import opened Http
  import Js

  // ---------------------------------------------------------------------
  // Request preparation
  // ---------------------------------------------------------------------

  /** The guard `!bookName || !bookName.trim()`. */
  predicate BookNameMissing(bookName: string) {
    !Js.Truthy(bookName) || !Js.Truthy(Js.Trim(bookName))
  }

  /** The guard rejects exactly the names made of whitespace alone (the
      empty name included). */
  lemma BookNameMissingIffBlank(bookName: string)
    ensures BookNameMissing(bookName) <==> Js.AllWhitespace(bookName)
  {
  }

  /** The headers every request carries: an `Authorization` header holding
      `Bearer ` followed by the token when the token is a non-empty string,
      and nothing at all otherwise. */
  function AuthHeaders(authToken: Option<string>): (h: map<string, string>)
    ensures h.Keys <= {"Authorization"}
    ensures "Authorization" in h <==> authToken.Some? && authToken.value != ""
    ensures "Authorization" in h ==>
              |h["Authorization"]| == 7 + |authToken.value|
              && h["Authorization"][..7] == "Bearer "
              && h["Authorization"][7..] == authToken.value
  {
    if authToken.Some? && Js.Truthy(authToken.value) then
      map["Authorization" := "Bearer " + authToken.value]
    else
      map[]
  }

  // ---------------------------------------------------------------------
  // getAllBooks
  // ---------------------------------------------------------------------

  /** The filter `item.type === 'dir'` fused with the map to `{name, url}`. */
  function BookOf(e: Entry): (r: Option<ProgrammingBook>)
    ensures r.Some? <==> e.Object? && e.item.kind == Str("dir")
    ensures r.Some? ==> e.item.name == r.value.name && e.item.url == r.value.url
  {
    if e.Object? && e.item.kind == Str("dir") then Some(ProgrammingBook(e.item.name, e.item.url))
    else None
  }

  /** The books of a parsed listing: the directory entries, in order. */
  function DirEntries(es: seq<Entry>): seq<ProgrammingBook> {
    Js.Collect(es, BookOf)
  }

  /** Decoding of the root listing. There is no array check and the filter
      reads `item.type` without `?.`: a non-array body (no callable `filter`)
      or a `null` entry raises a TypeError. */
  function DecodeBooks(body: Body): (r: Result<seq<ProgrammingBook>>)
    ensures body.Unparseable? <==> r == Err(MalformedJson)
    ensures r == Err(TypeFault) <==> body.NonArray? || (body.Array? && Null in body.entries)
    ensures r.Ok? ==> body.Array? && |r.value| <= |body.entries|
    ensures r.Ok? ==> forall b :: b in r.value ==>
              exists i :: 0 <= i < |body.entries| && body.entries[i].Object?
                && body.entries[i].item.kind == Str("dir")
                && body.entries[i].item.name == b.name && body.entries[i].item.url == b.url
    ensures body.Array? && Null !in body.entries ==>
              r.Ok? && forall i :: 0 <= i < |body.entries| && BookOf(body.entries[i]).Some? ==>
                         BookOf(body.entries[i]).value in r.value
  {
    match body
    case Unparseable => Err(MalformedJson)
    case NonArray => Err(TypeFault)
    case Array(es) => if Null in es then Err(TypeFault) else Ok(DirEntries(es))
  }

  /** getAllBooks: one request to the root listing, then a status check,
      then decoding. */
  function GetAllBooks(options: BooksOptions, fetch: Request -> Response): (run: Run<seq<ProgrammingBook>>)
    ensures run.sent == Some(Request(RootContents, AuthHeaders(options.authToken)))
    ensures !fetch(run.sent.value).Ok() ==> run.result == Err(Upstream(fetch(run.sent.value).status))
    ensures fetch(run.sent.value).Ok() ==> run.result == DecodeBooks(fetch(run.sent.value).body)
  {
    var request := Request(RootContents, AuthHeaders(options.authToken));
    var response := fetch(request);
    Run(Some(request), if !response.Ok() then Err(Upstream(response.status)) else DecodeBooks(response.body))
  }

  /** A listing made only of files yields no books. */
  lemma AllFilesNoBooks(es: seq<Entry>)
    requires forall i :: 0 <= i < |es| ==> es[i].Object? && es[i].item.kind == Str("file")
    ensures DecodeBooks(Array(es)) == Ok([])
  {
    Js.CollectNone(es, BookOf);
  }

  /** Decoding a listing is decoding its parts: the books of `a + b` are the
      books of `a` followed by the books of `b`. */
  lemma DecodeBooksAppend(a: seq<Entry>, b: seq<Entry>)
    requires Null !in a && Null !in b
    ensures DecodeBooks(Array(a)).Ok? && DecodeBooks(Array(b)).Ok? && DecodeBooks(Array(a + b)).Ok?
    ensures DecodeBooks(Array(a + b)).value == DecodeBooks(Array(a)).value + DecodeBooks(Array(b)).value
  {
    Js.CollectAppend(a, b, BookOf);
  }

  /** A single entry decodes to its book when it is a directory, and to
      nothing otherwise. With DecodeBooksAppend this fixes the decoded list
      of every listing: one book per directory entry, in upstream order. */
  lemma DecodeBooksSingle(e: Entry)
    requires e != Null
    ensures DecodeBooks(Array([e])) == Ok(if BookOf(e).Some? then [BookOf(e).value] else [])
  {
    assert Null !in [e];
    assert [e][0] == e && [e][1..] == [];
    assert Js.Collect([e][1..], BookOf) == [];
    if BookOf(e).Some? {
      assert Js.Collect([e], BookOf) == [BookOf(e).value] + [];
      assert [BookOf(e).value] + [] == [BookOf(e).value];
    } else {
      assert Js.Collect([e], BookOf) == [];
    }
  }

  /** Every directory entry becomes a book, at the position given by the
      number of directory entries before it, so books keep the upstream order. */
  lemma BooksKeepUpstreamOrder(es: seq<Entry>, i: int, j: int)
    requires Null !in es
    requires 0 <= i < j < |es|
    requires BookOf(es[i]).Some? && BookOf(es[j]).Some?
    ensures DecodeBooks(Array(es[..i])).Ok? && DecodeBooks(Array(es[..j])).Ok? && DecodeBooks(Array(es)).Ok?
    ensures var books := DecodeBooks(Array(es)).value;
            var p := |DecodeBooks(Array(es[..i])).value|;
            var q := |DecodeBooks(Array(es[..j])).value|;
            p < q < |books|
            && books[p] == ProgrammingBook(es[i].item.name, es[i].item.url)
            && books[q] == ProgrammingBook(es[j].item.name, es[j].item.url)
  {
    assert Null !in es[..i] && Null !in es[..j] by {
      assert forall k :: 0 <= k < j ==> es[..j][k] == es[k];
      assert forall k :: 0 <= k < i ==> es[..i][k] == es[k];
    }
    Js.CollectPrefix(es, i, j, BookOf);
    Js.CollectPosition(es, i, BookOf);
    Js.CollectPosition(es, j, BookOf);
  }

  // ---------------------------------------------------------------------
  // The image pipeline shared by getImagesByBook and getRandomImageByBook
  // ---------------------------------------------------------------------

  /** The filter `item?.type === "file" && typeof item.download_url === "string"`
      fused with the map to `{name, size, download_url}`. */
  function ImageOf(e: Entry): (r: Option<BookImage>)
    ensures r.Some? <==> e.Object? && e.item.kind == Str("file") && e.item.downloadUrl.Str?
    ensures r.Some? ==>
              e.item.name == r.value.name && e.item.size == r.value.size && e.item.downloadUrl == Str(r.value.downloadUrl)
  {
    if e.Object? && e.item.kind == Str("file") && e.item.downloadUrl.Str? then
      Some(BookImage(e.item.name, e.item.size, e.item.downloadUrl.text))
    else
      None
  }

  /** The images of a parsed listing. */
  function Images(es: seq<Entry>): seq<BookImage> {
    Js.Collect(es, ImageOf)
  }

  /** Decoding of a book listing, guarded by `Array.isArray`. An array
      always decodes, to the images of exactly its qualifying entries. */
  function DecodeImages(body: Body): (r: Result<seq<BookImage>>)
    ensures body.Unparseable? <==> r == Err(MalformedJson)
    ensures body.NonArray? <==> r == Err(InvalidContent)
    ensures body.Array? <==> r.Ok?
    ensures r.Ok? ==> |r.value| <= |body.entries|
    ensures r.Ok? ==> forall i :: 0 <= i < |body.entries| && ImageOf(body.entries[i]).Some? ==>
              ImageOf(body.entries[i]).value in r.value
    ensures r.Ok? ==> forall y :: y in r.value ==>
              exists i :: 0 <= i < |body.entries| && ImageOf(body.entries[i]) == Some(y)
  {
    match body
    case Unparseable => Err(MalformedJson)
    case NonArray => Err(InvalidContent)
    case Array(es) => Ok(Images(es))
  }

  /** Every listed image comes from a file entry with a string download URL,
      with name, size and URL copied unchanged; every such entry is listed;
      and the list is never longer than the input. */
  lemma ImagesAreTheFileEntries(es: seq<Entry>)
    ensures DecodeImages(Array(es)).Ok?
    ensures var images := DecodeImages(Array(es)).value;
            |images| <= |es|
            && (forall y :: y in images ==>
                  exists i :: 0 <= i < |es| && es[i].Object?
                    && es[i].item == RawItem(Str("file"), y.name, es[i].item.url, y.size, Str(y.downloadUrl)))
            && (forall i :: 0 <= i < |es| && es[i].Object? && es[i].item.kind == Str("file") && es[i].item.downloadUrl.Str? ==>
                  BookImage(es[i].item.name, es[i].item.size, es[i].item.downloadUrl.text) in images)
  {
    var images := DecodeImages(Array(es)).value;
    forall y | y in images
      ensures exists i :: 0 <= i < |es| && es[i].Object?
                && es[i].item == RawItem(Str("file"), y.name, es[i].item.url, y.size, Str(y.downloadUrl))
    {
      var i :| 0 <= i < |es| && ImageOf(es[i]) == Some(y);
      assert es[i].item == RawItem(Str("file"), y.name, es[i].item.url, y.size, Str(y.downloadUrl));
    }
  }

  /** Decoding a listing is decoding its parts: the images of `a + b` are
      the images of `a` followed by the images of `b`. */
  lemma DecodeImagesAppend(a: seq<Entry>, b: seq<Entry>)
    ensures DecodeImages(Array(a)).Ok? && DecodeImages(Array(b)).Ok? && DecodeImages(Array(a + b)).Ok?
    ensures DecodeImages(Array(a + b)).value == DecodeImages(Array(a)).value + DecodeImages(Array(b)).value
  {
    Js.CollectAppend(a, b, ImageOf);
  }

  /** A single entry decodes to its image when it qualifies, and to nothing
      otherwise. With DecodeImagesAppend this fixes the decoded list of every
      listing: one image per qualifying entry, in upstream order. */
  lemma DecodeImagesSingle(e: Entry)
    ensures DecodeImages(Array([e])) == Ok(if ImageOf(e).Some? then [ImageOf(e).value] else [])
  {
    assert [e][0] == e && [e][1..] == [];
    assert Js.Collect([e][1..], ImageOf) == [];
    if ImageOf(e).Some? {
      assert Js.Collect([e], ImageOf) == [ImageOf(e).value] + [];
      assert [ImageOf(e).value] + [] == [ImageOf(e).value];
    } else {
      assert Js.Collect([e], ImageOf) == [];
    }
  }

  /** Images keep the upstream order: a qualifying entry lands at the
      position given by the number of qualifying entries before it. */
  lemma ImagesKeepUpstreamOrder(es: seq<Entry>, i: int, j: int)
    requires 0 <= i < j < |es|
    requires ImageOf(es[i]).Some? && ImageOf(es[j]).Some?
    ensures var images := DecodeImages(Array(es)).value;
            var p := |DecodeImages(Array(es[..i])).value|;
            var q := |DecodeImages(Array(es[..j])).value|;
            p < q < |images|
            && images[p] == ImageOf(es[i]).value
            && images[q] == ImageOf(es[j]).value
  {
    Js.CollectPrefix(es, i, j, ImageOf);
    Js.CollectPosition(es, i, ImageOf);
    Js.CollectPosition(es, j, ImageOf);
  }

  /** Entries that are not files, or whose download URL is not a string,
      contribute nothing. */
  lemma ImagesSkipOthers(es: seq<Entry>)
    requires forall i :: 0 <= i < |es| ==> !(es[i].Object? && es[i].item.kind == Str("file") && es[i].item.downloadUrl.Str?)
    ensures DecodeImages(Array(es)) == Ok([])
  {
    Js.CollectNone(es, ImageOf);
  }

  /** A listing of N files that all carry a string download URL decodes to
      N images, entry by entry. */
  lemma ValidFilesListedElementwise(es: seq<Entry>)
    requires forall i :: 0 <= i < |es| ==> es[i].Object? && es[i].item.kind == Str("file") && es[i].item.downloadUrl.Str?
    ensures DecodeImages(Array(es)).Ok? && |DecodeImages(Array(es)).value| == |es|
    ensures forall i :: 0 <= i < |es| ==>
              DecodeImages(Array(es)).value[i] == BookImage(es[i].item.name, es[i].item.size, es[i].item.downloadUrl.text)
  {
    Js.CollectAll(es, ImageOf);
  }

  /** Validation, request, status check and decoding, common to both image
      operations. A rejected name sends nothing. */
  function FetchImages(bookName: string, authToken: Option<string>, fetch: Request -> Response): (run: Run<seq<BookImage>>)
    ensures BookNameMissing(bookName) <==> run.sent.None?
    ensures BookNameMissing(bookName) ==> run.result == Err(InvalidArgument)
    ensures !BookNameMissing(bookName) ==>
              run.sent == Some(Request(BookContents(bookName), AuthHeaders(authToken)))
              && (!fetch(run.sent.value).Ok() ==> run.result == Err(Upstream(fetch(run.sent.value).status)))
              && (fetch(run.sent.value).Ok() ==> run.result == DecodeImages(fetch(run.sent.value).body))
  {
    if BookNameMissing(bookName) then
      Run(None, Err(InvalidArgument))
    else
      var request := Request(BookContents(bookName), AuthHeaders(authToken));
      var response := fetch(request);
      Run(Some(request), if !response.Ok() then Err(Upstream(response.status)) else DecodeImages(response.body))
  }

  // ---------------------------------------------------------------------
  // getImagesByBook
  // ---------------------------------------------------------------------

  /** The rule `typeof limit === "number" && limit > 0 ? images.slice(0, limit) : images`:
      always a prefix; the whole list unless the limit is a positive number,
      and then as long as its integer part allows. */
  function ApplyLimit(images: seq<BookImage>, limit: Option<real>): (r: seq<BookImage>)
    ensures |r| <= |images| && r == images[..|r|]
    ensures limit.None? || limit.value <= 0.0 ==> r == images
    ensures limit.Some? && 0.0 < limit.value ==>
              |r| as real <= limit.value && (|r| == |images| || limit.value < |r| as real + 1.0)
  {
    if limit.Some? && limit.value > 0.0 then Js.SliceTo(images, limit.value) else images
  }

  /** A positive whole limit `k` keeps exactly the first `min(k, n)` images. */
  lemma WholeLimitKeepsFirst(images: seq<BookImage>, k: int)
    requires 0 < k
    ensures ApplyLimit(images, Some(k as real)) == images[..if k < |images| then k else |images|]
  {
  }

  /** A positive limit below one keeps nothing: the slice end truncates to 0. */
  lemma FractionalLimitKeepsNothing(images: seq<BookImage>, limit: real)
    requires 0.0 < limit < 1.0
    ensures ApplyLimit(images, Some(limit)) == []
  {
  }

  /** Limiting twice with the same limit changes nothing more, and a larger
      limit never yields a shorter prefix. */
  lemma LimitIdempotentAndMonotone(images: seq<BookImage>, a: real, b: real)
    requires a <= b
    ensures ApplyLimit(ApplyLimit(images, Some(a)), Some(a)) == ApplyLimit(images, Some(a))
    ensures 0.0 < a ==> ApplyLimit(images, Some(a)) <= ApplyLimit(images, Some(b))
  {
  }

  /** getImagesByBook. */
  function GetImagesByBook(bookName: string, options: ImagesOptions, fetch: Request -> Response): (run: Run<seq<BookImage>>)
    ensures run.sent == FetchImages(bookName, options.authToken, fetch).sent
    ensures FetchImages(bookName, options.authToken, fetch).result.Err? ==>
              run.result == FetchImages(bookName, options.authToken, fetch).result
    ensures FetchImages(bookName, options.authToken, fetch).result.Ok? ==>
              run.result.Ok? && run.result.value <= FetchImages(bookName, options.authToken, fetch).result.value
    ensures var f := FetchImages(bookName, options.authToken, fetch).result;
            f.Ok? && (options.limit.None? || options.limit.value <= 0.0) ==> run.result == f
    ensures var f := FetchImages(bookName, options.authToken, fetch).result;
            f.Ok? && options.limit.Some? && 0.0 < options.limit.value ==>
              |run.result.value| as real <= options.limit.value
              && (|run.result.value| == |f.value| || options.limit.value < |run.result.value| as real + 1.0)
  {
    var run := FetchImages(bookName, options.authToken, fetch);
    match run.result
    case Err(_) => run
    case Ok(images) => Run(run.sent, Ok(ApplyLimit(images, options.limit)))
  }

  /** A listing with a limit is a prefix of the listing without one, and
      equal to it when the limit is absent, zero or negative; the request and
      any failure are the same. */
  lemma LimitedListingIsPrefix(bookName: string, options: ImagesOptions, fetch: Request -> Response)
    ensures var limited := GetImagesByBook(bookName, options, fetch);
            var full := GetImagesByBook(bookName, options.(limit := None), fetch);
            limited.sent == full.sent
            && limited.result.Ok? == full.result.Ok?
            && (limited.result.Err? ==> limited.result == full.result)
            && (limited.result.Ok? ==> limited.result.value <= full.result.value)
            && (options.limit.None? || options.limit.value <= 0.0 ==> limited == full)
  {
  }

  // ---------------------------------------------------------------------
  // getRandomImageByBook
  // ---------------------------------------------------------------------

  /** The pick `images[Math.floor(Math.random() * images.length)]`, with the
      draw `u` of Math.random passed in. */
  function PickImage(images: seq<BookImage>, u: real): (r: Result<BookImage>)
    requires 0.0 <= u < 1.0
    ensures images == [] <==> r == Err(NoImages)
    ensures r.Ok? ==> r.value in images
    ensures |images| == 1 ==> r == Ok(images[0])
    ensures images != [] ==> r == Ok(images[Js.ScaledIndex(u, |images|)])
  {
    if |images| == 0 then Err(NoImages) else Ok(images[Js.ScaledIndex(u, |images|)])
  }

  /** Image `i` is picked by exactly the draws of the interval
      `[i/n, (i+1)/n)`, of width `1/n`: the pick is uniform when the draw is. */
  lemma PickIsUniform(images: seq<BookImage>, u: real, i: int)
    requires 0.0 <= u < 1.0
    requires 0 <= i < |images|
    ensures Js.ScaledIndex(u, |images|) == i <==>
              (i as real) / (|images| as real) <= u < ((i + 1) as real) / (|images| as real)
  {
    Js.DivideBelow(i as real, |images| as real, u);
    Js.DivideAbove((i + 1) as real, |images| as real, u);
  }

  /** Every image can be picked: the draw `i/n` picks image `i`. */
  lemma EveryImageCanBePicked(images: seq<BookImage>, i: int)
    requires 0 <= i < |images|
    ensures var u := (i as real) / (|images| as real);
            0.0 <= u < 1.0 && PickImage(images, u) == Ok(images[i])
  {
    var n := |images| as real;
    var u := (i as real) / n;
    Js.DivideBelow(0.0, n, u);
    Js.DivideAbove(n, n, u);
    assert u * n == i as real;
    assert Js.ScaledIndex(u, |images|) == i;
  }

  /** getRandomImageByBook, with the draw of Math.random passed in. The
      `limit` option is not consulted. */
  function GetRandomImageByBook(bookName: string, options: ImagesOptions, fetch: Request -> Response, u: real): (run: Run<BookImage>)
    requires 0.0 <= u < 1.0
    ensures run.sent == FetchImages(bookName, options.authToken, fetch).sent
    ensures FetchImages(bookName, options.authToken, fetch).result.Err? ==>
              run.result == Err(FetchImages(bookName, options.authToken, fetch).result.error)
    ensures run.result.Ok? ==> run.result.value in FetchImages(bookName, options.authToken, fetch).result.value
    ensures run.result == Err(NoImages) <==> FetchImages(bookName, options.authToken, fetch).result == Ok([])
    ensures var f := FetchImages(bookName, options.authToken, fetch).result;
            f.Ok? && f.value != [] ==> run.result == Ok(f.value[Js.ScaledIndex(u, |f.value|)])
  {
    var run := FetchImages(bookName, options.authToken, fetch);
    match run.result
    case Err(e) => Run(run.sent, Err(e))
    case Ok(images) => Run(run.sent, PickImage(images, u))
  }

  // ---------------------------------------------------------------------
  // Properties across the operations
  // ---------------------------------------------------------------------

  /** Both image operations reject a blank book name before sending
      anything, and send their one request otherwise. */
  lemma BlankNameSendsNothing(bookName: string, options: ImagesOptions, fetch: Request -> Response, u: real)
    requires 0.0 <= u < 1.0
    ensures GetImagesByBook(bookName, options, fetch).sent.None? <==> Js.AllWhitespace(bookName)
    ensures GetRandomImageByBook(bookName, options, fetch, u).sent.None? <==> Js.AllWhitespace(bookName)
    ensures Js.AllWhitespace(bookName) ==>
              GetImagesByBook(bookName, options, fetch).result == Err(InvalidArgument)
              && GetRandomImageByBook(bookName, options, fetch, u).result == Err(InvalidArgument)
  {
    BookNameMissingIffBlank(bookName);
  }

  /** A response outside 200..299 fails every operation with its status,
      whatever its body. */
  lemma NotOkFailsWithStatus(bookName: string, options: ImagesOptions, fetch: Request -> Response, u: real)
    requires 0.0 <= u < 1.0
    ensures var r := fetch(Request(RootContents, AuthHeaders(options.authToken)));
            !r.Ok() ==> GetAllBooks(BooksOptions(options.authToken), fetch).result == Err(Upstream(r.status))
    ensures var r := fetch(Request(BookContents(bookName), AuthHeaders(options.authToken)));
            !Js.AllWhitespace(bookName) && !r.Ok() ==>
              GetImagesByBook(bookName, options, fetch).result == Err(Upstream(r.status))
              && GetRandomImageByBook(bookName, options, fetch, u).result == Err(Upstream(r.status))
  {
    BookNameMissingIffBlank(bookName);
  }

  /** A body that is not an array fails both image operations with
      InvalidContent. */
  lemma NonArrayIsInvalidContent(bookName: string, options: ImagesOptions, fetch: Request -> Response, u: real)
    requires 0.0 <= u < 1.0
    requires !Js.AllWhitespace(bookName)
    requires var r := fetch(Request(BookContents(bookName), AuthHeaders(options.authToken)));
             r.Ok() && r.body.NonArray?
    ensures GetImagesByBook(bookName, options, fetch).result == Err(InvalidContent)
    ensures GetRandomImageByBook(bookName, options, fetch, u).result == Err(InvalidContent)
  {
    BookNameMissingIffBlank(bookName);
  }

  /** The random pick ignores `limit`; over the same response it returns
      the element of the unlimited listing that the draw selects, and reports
      NoImages exactly when that listing is empty. */
  lemma RandomPickIsFromListing(bookName: string, options: ImagesOptions, fetch: Request -> Response, u: real)
    requires 0.0 <= u < 1.0
    ensures GetRandomImageByBook(bookName, options, fetch, u)
         == GetRandomImageByBook(bookName, options.(limit := None), fetch, u)
    ensures var pick := GetRandomImageByBook(bookName, options, fetch, u);
            var listing := GetImagesByBook(bookName, options.(limit := None), fetch);
            pick.sent == listing.sent
            && (pick.result.Ok? ==> listing.result.Ok? && pick.result.value in listing.result.value)
            && (pick.result == Err(NoImages) <==> listing.result == Ok([]))
            && (listing.result.Err? ==> pick.result == Err(listing.result.error))
            && (listing.result.Ok? && listing.result.value != [] ==>
                  pick.result == Ok(listing.result.value[Js.ScaledIndex(u, |listing.result.value|)]))
  {
  }

  /** With exactly one qualifying image, every draw returns that image. */
  lemma SingleImageAlwaysPicked(bookName: string, options: ImagesOptions, fetch: Request -> Response, u: real)
    requires 0.0 <= u < 1.0
    requires var listing := FetchImages(bookName, options.authToken, fetch).result;
             listing.Ok? && |listing.value| == 1
    ensures GetRandomImageByBook(bookName, options, fetch, u).result
         == Ok(FetchImages(bookName, options.authToken, fetch).result.value[0])
  {
  }
}
