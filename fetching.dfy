/**
 * The web as scrapeWebsite sees it, and the image closure.
 *
 * A page either fails (the request, the `body` filter or the text file
 * write throws, and scrapeWebsite's catch swallows it) or yields the `src`
 * of every <img> and the `href` of every <a>, in document order. An image
 * fetch either fails (file_get_contents throws and saveImage returns
 * null) or yields its bytes.
 */
module Fetching {
  import opened Wrappers
  import opened Naming

  datatype Fetched = Unreachable | Html(imageSrcs: seq<Url>, linkHrefs: seq<Url>)

  datatype Web = Web(
    page: Url -> Fetched,
    image: Url -> Option<string>,
    host: Url -> HostPart,
    md5: Url -> Digest,
    extension: Url -> string)

  /** One entry of a page's 'images' list. */
  datatype ImageRow = ImageRow(url: Url, filename: string)

  /** saveImage: the file name on success, null when the fetch fails. */
  function SaveImage(w: Web, imgUrl: Url): Option<string>
  {
    if w.image(imgUrl).Some? then Some(ImageFilename(w.md5, w.extension, imgUrl)) else None
  }

  /** The $images list the image closure builds from the page's <img> sources. */
  function SavedImages(w: Web, srcs: seq<Url>): (r: seq<ImageRow>)
    ensures |r| <= |srcs|
    ensures forall k :: 0 <= k < |r| ==>
              r[k].url in srcs && w.image(r[k].url).Some? &&
              r[k].filename == ImageFilename(w.md5, w.extension, r[k].url)
    decreases |srcs|
  {
    if srcs == [] then []
    else
      var rows := SavedImages(w, srcs[..|srcs| - 1]);
      var src := srcs[|srcs| - 1];
      assert srcs == srcs[..|srcs| - 1] + [src];
      match SaveImage(w, src)
      case Some(name) => rows + [ImageRow(src, name)]
      case None => rows
  }

  /** When every image fetches, every source is saved, in document order. */
  lemma {:induction false} AllImagesSaved(w: Web, srcs: seq<Url>)
    requires forall u :: u in srcs ==> w.image(u).Some?
    ensures |SavedImages(w, srcs)| == |srcs|
    ensures forall k :: 0 <= k < |srcs| ==> SavedImages(w, srcs)[k].url == srcs[k]
    decreases |srcs|
  {
    if srcs != [] {
      var prefix := srcs[..|srcs| - 1];
      assert srcs == prefix + [srcs[|srcs| - 1]];
      AllImagesSaved(w, prefix);
    }
  }

  /** Images are saved one at a time: the list for a + b is the list for a, then the list for b. */
  lemma {:induction false} SavedImagesAppend(w: Web, a: seq<Url>, b: seq<Url>)
    ensures SavedImages(w, a + b) == SavedImages(w, a) + SavedImages(w, b)
    decreases |b|
  {
    if b == [] {
      assert a + b == a;
    } else {
      var ab, init, last := a + b, b[..|b| - 1], b[|b| - 1];
      assert ab[..|ab| - 1] == a + init;
      assert ab[|ab| - 1] == last;
      SavedImagesAppend(w, a, init);
      var tail := if SaveImage(w, last).Some? then [ImageRow(last, SaveImage(w, last).value)] else [];
      assert SavedImages(w, ab) == SavedImages(w, a + init) + tail;
      assert SavedImages(w, b) == SavedImages(w, init) + tail;
    }
  }

  /**
   * The successful sources in document order, each paired with its name:
   * a filter over the sources, written independently of `SavedImages`.
   */
  function SuccessfulImages(w: Web, srcs: seq<Url>): seq<ImageRow>
  {
    if srcs == [] then []
    else
      (if w.image(srcs[0]).Some? then [ImageRow(srcs[0], ImageFilename(w.md5, w.extension, srcs[0]))] else [])
      + SuccessfulImages(w, srcs[1..])
  }

  /** The image list is exactly the sources whose fetch succeeded, in document order, named by their URLs. */
  lemma {:induction false} SavedImagesAreSuccessfulSources(w: Web, srcs: seq<Url>)
    ensures SavedImages(w, srcs) == SuccessfulImages(w, srcs)
    decreases |srcs|
  {
    if srcs != [] {
      assert srcs == [srcs[0]] + srcs[1..];
      SavedImagesAppend(w, [srcs[0]], srcs[1..]);
      assert [srcs[0]][..0] == [];
      SavedImagesAreSuccessfulSources(w, srcs[1..]);
    }
  }

  /** An image whose fetch fails is dropped, and only that image: its neighbours are saved as before. */
  lemma FailedImageDropped(w: Web, before: seq<Url>, bad: Url, after: seq<Url>)
    requires w.image(bad) == None
    ensures SavedImages(w, before + [bad] + after) == SavedImages(w, before) + SavedImages(w, after)
  {
    SavedImagesAppend(w, before + [bad], after);
    SavedImagesAppend(w, before, [bad]);
    assert [bad][..0] == [];
  }
}
