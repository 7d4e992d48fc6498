/**
 * What WebScraperService derives from a URL string alone: the host that
 * isSameDomain compares, and the storage names chosen by saveText and
 * saveImage. PHP's parse_url, md5 and pathinfo are not modelled; they
 * enter as function parameters.
 */
module Naming {

  type Url = string

  /**
   * The value of parse_url($u, PHP_URL_HOST): `false` when PHP cannot
   * parse the URL, `null` when it has no host part (a relative href such
   * as "/about"), or the host string.
   */
  datatype HostPart = Unparsable | NoHost | Host(name: string)

  /** isSameDomain: the two host parts are compared with `===`. */
  predicate IsSameDomain(host: Url -> HostPart, url1: Url, url2: Url)
  {
    host(url1) == host(url2)
  }

  predicate IsHexDigit(c: char)
  {
    '0' <= c <= '9' || 'a' <= c <= 'f'
  }

  /** md5() returns 32 lower-case hexadecimal digits. */
  predicate IsMd5Hex(s: string)
  {
    |s| == 32 && forall i :: 0 <= i < |s| ==> IsHexDigit(s[i])
  }

  type Digest = s: string | IsMd5Hex(s) witness "00000000000000000000000000000000"

  /** saveText's file name: md5($url) . '.txt'. */
  function TextFilename(md5: Url -> Digest, url: Url): string
  {
    md5(url) + ".txt"
  }

  /** saveImage's file name: md5($imgUrl) . '.' . pathinfo($imgUrl, PATHINFO_EXTENSION). */
  function ImageFilename(md5: Url -> Digest, extension: Url -> string, imgUrl: Url): string
  {
    md5(imgUrl) + "." + extension(imgUrl)
  }

  /** PHP's truth value of a string: only "" and "0" are false. */
  predicate PhpTruthy(s: string)
  {
    s != "" && s != "0"
  }

  /** Two URLs without a host part compare equal (null === null). */
  lemma HostlessUrlsAreSameDomain(host: Url -> HostPart, url1: Url, url2: Url)
    requires host(url1) == NoHost && host(url2) == NoHost
    ensures IsSameDomain(host, url1, url2)
  {
  }

  /** A relative href is never on the same domain as a page that has a host. */
  lemma RelativeHrefIsForeign(host: Url -> HostPart, page: Url, href: Url)
    requires host(page).Host? && host(href) == NoHost
    ensures !IsSameDomain(host, page, href)
  {
  }

  /** Being on the same domain is an equivalence: what the crawl's host invariant rests on. */
  lemma SameDomainIsEquivalence(host: Url -> HostPart, a: Url, b: Url, c: Url)
    ensures IsSameDomain(host, a, a)
    ensures IsSameDomain(host, a, b) ==> IsSameDomain(host, b, a)
    ensures IsSameDomain(host, a, b) && IsSameDomain(host, b, c) ==> IsSameDomain(host, a, c)
  {
  }

  /** Two text files get the same name exactly when the digests of their URLs collide. */
  lemma TextFilenamesCollide(md5: Url -> Digest, a: Url, b: Url)
    ensures TextFilename(md5, a) == TextFilename(md5, b) <==> md5(a) == md5(b)
  {
    if TextFilename(md5, a) == TextFilename(md5, b) {
      assert md5(a) == TextFilename(md5, a)[..32];
      assert md5(b) == TextFilename(md5, b)[..32];
    }
  }

  /** Two images get the same name exactly when their URLs agree on digest and extension. */
  lemma ImageFilenamesCollide(md5: Url -> Digest, extension: Url -> string, a: Url, b: Url)
    ensures ImageFilename(md5, extension, a) == ImageFilename(md5, extension, b)
            <==> md5(a) == md5(b) && extension(a) == extension(b)
  {
    var na, nb := ImageFilename(md5, extension, a), ImageFilename(md5, extension, b);
    if na == nb {
      assert md5(a) == na[..32] && md5(b) == nb[..32];
      assert extension(a) == na[33..] && extension(b) == nb[33..];
    }
  }

  /** An image file overwrites a text file exactly when the digests collide and the extension is "txt". */
  lemma TextAndImageFilenamesCollide(md5: Url -> Digest, extension: Url -> string, page: Url, imgUrl: Url)
    ensures TextFilename(md5, page) == ImageFilename(md5, extension, imgUrl)
            <==> md5(page) == md5(imgUrl) && extension(imgUrl) == "txt"
  {
    var nt, ni := TextFilename(md5, page), ImageFilename(md5, extension, imgUrl);
    if nt == ni {
      assert md5(page) == nt[..32] && md5(imgUrl) == ni[..32];
      assert extension(imgUrl) == ni[33..] && nt[33..] == "txt";
    }
  }

  /** saveImage's name is never "" or "0", so the `if ($imgFilename)` test fails only on null. */
  lemma ImageFilenameIsTruthy(md5: Url -> Digest, extension: Url -> string, imgUrl: Url)
    ensures PhpTruthy(ImageFilename(md5, extension, imgUrl))
  {
    assert |ImageFilename(md5, extension, imgUrl)| >= 33;
  }
}
