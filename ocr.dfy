/** The parts of the OCR service's response that the converter reads, and the
    Python dict from image id to base64 payload that it builds for each page. */
module Ocr {

  datatype Option<T> = None | Some(value: T)

  /** One extracted image of a page: `img.id` and `img.image_base64`. */
  datatype Image = Image(id: string, imageBase64: string)

  /** `page.markdown` and `page.images` */
  datatype Page = Page(markdown: string, images: seq<Image>)

  /** `pdf_response.pages`, in document order. */
  datatype Response = Response(pages: seq<Page>)

  /** A Python dict from image id to base64 payload, as its entries in insertion
      order; the dicts built here never repeat a key. */
  type ImageDict = seq<(string, string)>

  predicate HasKey(d: ImageDict, k: string) {
    exists i :: 0 <= i < |d| && d[i].0 == k
  }

  predicate DistinctKeys(d: ImageDict) {
    forall i, j :: 0 <= i < j < |d| ==> d[i].0 != d[j].0
  }

  /** Past a first entry with another key, the rest of the dict has the same keys. */
  lemma HasKeyTail(d: ImageDict, k: string)
    requires |d| > 0 && d[0].0 != k
    ensures HasKey(d, k) <==> HasKey(d[1..], k)
  {
    if HasKey(d[1..], k) {
      var i :| 0 <= i < |d[1..]| && d[1..][i].0 == k;
      assert d[i + 1].0 == k;
    }
    if HasKey(d, k) {
      var i :| 0 <= i < |d| && d[i].0 == k;
      assert i > 0 && d[1..][i - 1].0 == k;
    }
  }

  /** The rest of a dict without repeated keys repeats none either. */
  lemma DistinctTail(d: ImageDict)
    requires |d| > 0
    ensures DistinctKeys(d) ==> DistinctKeys(d[1..])
  {
    if DistinctKeys(d) {
      forall i, j | 0 <= i < j < |d[1..]| ensures d[1..][i].0 != d[1..][j].0 {
        assert d[1..][i] == d[i + 1] && d[1..][j] == d[j + 1];
      }
    }
  }

  /** `d.get(k)`: the value of the entry for `k`, if there is one. */
  function Lookup(d: ImageDict, k: string): (r: Option<string>)
    ensures r.None? <==> !HasKey(d, k)
    ensures r.Some? ==> (k, r.value) in d
  {
    if |d| == 0 then None
    else if d[0].0 == k then Some(d[0].1)
    else
      HasKeyTail(d, k);
      Lookup(d[1..], k)
  }

  /** An entry added after all others is found only for a key that had no entry. */
  lemma {:induction false} LookupAppend(d: ImageDict, e: (string, string), k: string)
    ensures Lookup(d + [e], k) == if HasKey(d, k) then Lookup(d, k) else if e.0 == k then Some(e.1) else None
    decreases |d|
  {
    if |d| > 0 {
      assert (d + [e])[0] == d[0];
      assert (d + [e])[1..] == d[1..] + [e];
      LookupAppend(d[1..], e, k);
    } else {
      assert d + [e] == [e];
    }
  }

  /** The same, read off a dict's last entry. */
  lemma LookupLast(d: ImageDict, k: string)
    requires |d| > 0
    ensures Lookup(d, k) ==
      if HasKey(d[..|d| - 1], k) then Lookup(d[..|d| - 1], k)
      else if d[|d| - 1].0 == k then Some(d[|d| - 1].1) else None
  {
    assert d[..|d| - 1] + [d[|d| - 1]] == d;
    LookupAppend(d[..|d| - 1], d[|d| - 1], k);
  }

  /** In a dict without repeated keys every entry is what its key looks up. */
  lemma {:induction false} LookupEntry(d: ImageDict, i: nat)
    requires DistinctKeys(d) && i < |d|
    ensures Lookup(d, d[i].0) == Some(d[i].1)
    decreases |d|
  {
    if i > 0 {
      assert d[0].0 != d[i].0;
      assert d[1..][i - 1] == d[i];
      DistinctTail(d);
      LookupEntry(d[1..], i - 1);
    }
  }

  /** `d[k] = v`: an existing key keeps its place and takes the new value, a new key
      is added last. */
  function Assign(d: ImageDict, k: string, v: string): (r: ImageDict)
    ensures !HasKey(d, k) ==> r == d + [(k, v)]
    ensures DistinctKeys(d) && HasKey(d, k) ==>
      |r| == |d| && forall i :: 0 <= i < |d| ==> r[i] == if d[i].0 == k then (k, v) else d[i]
  {
    if |d| == 0 then [(k, v)]
    else if d[0].0 == k then [(k, v)] + d[1..]
    else
      HasKeyTail(d, k);
      DistinctTail(d);
      [d[0]] + Assign(d[1..], k, v)
  }

  lemma {:induction false} AssignLookup(d: ImageDict, k: string, v: string, k': string)
    ensures Lookup(Assign(d, k, v), k') == if k' == k then Some(v) else Lookup(d, k')
    decreases |d|
  {
    if |d| > 0 && d[0].0 != k {
      AssignLookup(d[1..], k, v, k');
      assert ([d[0]] + Assign(d[1..], k, v))[1..] == Assign(d[1..], k, v);
    }
  }

  /** Assigning to a key of a dict without repeated keys keeps every other entry and
      adds no entry but the assigned one. */
  lemma AssignKeepsEntries(d: ImageDict, k: string, v: string)
    requires DistinctKeys(d)
    ensures forall e :: e in Assign(d, k, v) ==> e in d || e == (k, v)
  {
    var r := Assign(d, k, v);
    forall e | e in r ensures e in d || e == (k, v) {
      var i :| 0 <= i < |r| && r[i] == e;
      if !HasKey(d, k) {
        if i < |d| {
          assert r[i] == d[i];
        }
      } else if d[i].0 != k {
        assert r[i] == d[i];
      }
    }
  }

  /** After `d[k] = v` the keys are the old ones and `k`. */
  lemma AssignKeys(d: ImageDict, k: string, v: string, k': string)
    requires DistinctKeys(d)
    ensures HasKey(Assign(d, k, v), k') <==> HasKey(d, k') || k' == k
  {
    var r := Assign(d, k, v);
    if !HasKey(d, k) {
      assert r[|d|].0 == k;
      if HasKey(r, k') {
        var i :| 0 <= i < |r| && r[i].0 == k';
        if i < |d| {
          assert d[i].0 == k';
        }
      }
      if HasKey(d, k') {
        var i :| 0 <= i < |d| && d[i].0 == k';
        assert r[i].0 == k';
      }
    } else {
      if HasKey(r, k') {
        var i :| 0 <= i < |r| && r[i].0 == k';
        assert d[i].0 == k' || k' == k;
      }
      if HasKey(d, k') {
        var i :| 0 <= i < |d| && d[i].0 == k';
        assert r[i].0 == k';
      }
      if k' == k {
        var i :| 0 <= i < |d| && d[i].0 == k;
        assert r[i].0 == k;
      }
    }
  }

  /** Assigning to a dict without repeated keys repeats no key. */
  lemma AssignDistinct(d: ImageDict, k: string, v: string)
    requires DistinctKeys(d)
    ensures DistinctKeys(Assign(d, k, v))
  {
    var r := Assign(d, k, v);
    if !HasKey(d, k) {
      forall i, j | 0 <= i < j < |r| ensures r[i].0 != r[j].0 {
        assert r[i] == d[i];
        if j < |d| {
          assert r[j] == d[j];
        }
      }
    } else {
      forall i, j | 0 <= i < j < |r| ensures r[i].0 != r[j].0 {
        assert r[i].0 == d[i].0 && r[j].0 == d[j].0;
      }
    }
  }

  /** The dict that the inner loop of `get_combined_markdown` fills: for each image in
      order, `img_data[img.id] = img.image_base64`. */
  function FromImages(images: seq<Image>): ImageDict
  {
    if |images| == 0 then []
    else
      var last := images[|images| - 1];
      Assign(FromImages(images[..|images| - 1]), last.id, last.imageBase64)
  }

  /** A page's dict repeats no id. */
  lemma {:induction false} FromImagesDistinct(images: seq<Image>)
    ensures DistinctKeys(FromImages(images))
    decreases |images|
  {
    if |images| > 0 {
      var init, last := images[..|images| - 1], images[|images| - 1];
      FromImagesDistinct(init);
      AssignDistinct(FromImages(init), last.id, last.imageBase64);
    }
  }

  /** Every entry of a page's dict is one of the page's images. */
  lemma {:induction false} FromImagesEntries(images: seq<Image>)
    ensures forall e :: e in FromImages(images) ==> Image(e.0, e.1) in images
    decreases |images|
  {
    if |images| > 0 {
      var init, last := images[..|images| - 1], images[|images| - 1];
      FromImagesEntries(init);
      FromImagesDistinct(init);
      AssignKeepsEntries(FromImages(init), last.id, last.imageBase64);
      forall e | e in FromImages(images) ensures Image(e.0, e.1) in images {
        if e in FromImages(init) {
          assert Image(e.0, e.1) in init;
        }
      }
    }
  }

  /** Every image id of a page has an entry in the page's dict. */
  lemma {:induction false} FromImagesCovers(images: seq<Image>)
    ensures forall i :: 0 <= i < |images| ==> HasKey(FromImages(images), images[i].id)
    decreases |images|
  {
    if |images| > 0 {
      var n := |images|;
      var init, last := images[..n - 1], images[n - 1];
      FromImagesCovers(init);
      FromImagesDistinct(init);
      forall i | 0 <= i < n ensures HasKey(FromImages(images), images[i].id) {
        AssignKeys(FromImages(init), last.id, last.imageBase64, images[i].id);
        if i < n - 1 {
          assert init[i] == images[i];
        }
      }
    }
  }

  /** The dict of a page has one entry per distinct image id, every entry is one of
      the page's images, and every image id has an entry. */
  lemma FromImagesKeys(images: seq<Image>)
    ensures DistinctKeys(FromImages(images))
    ensures forall e :: e in FromImages(images) ==> Image(e.0, e.1) in images
    ensures forall i :: 0 <= i < |images| ==> HasKey(FromImages(images), images[i].id)
  {
    FromImagesDistinct(images);
    FromImagesEntries(images);
    FromImagesCovers(images);
  }

  /** Looking up a key in a page's dict: the last image decides for its own id, the
      earlier images for every other id. */
  lemma LookupLastImage(images: seq<Image>, k: string)
    requires |images| > 0
    ensures Lookup(FromImages(images), k) ==
      if k == images[|images| - 1].id then Some(images[|images| - 1].imageBase64)
      else Lookup(FromImages(images[..|images| - 1]), k)
  {
    var last := images[|images| - 1];
    AssignLookup(FromImages(images[..|images| - 1]), last.id, last.imageBase64, k);
  }

  /** When several images of a page share an id, the last one's payload is the one kept. */
  lemma {:induction false} LastImageWins(images: seq<Image>, i: nat)
    requires i < |images|
    requires forall j :: i < j < |images| ==> images[j].id != images[i].id
    ensures Lookup(FromImages(images), images[i].id) == Some(images[i].imageBase64)
    decreases |images|
  {
    var n := |images|;
    var init := images[..n - 1];
    LookupLastImage(images, images[i].id);
    if i < n - 1 {
      assert init[i] == images[i];
      forall j | i < j < |init| ensures init[j].id != init[i].id {
        assert init[j] == images[j];
      }
      LastImageWins(init, i);
    }
  }

  /** An id that no image of the page carries has no entry. */
  lemma {:induction false} AbsentIdHasNoEntry(images: seq<Image>, k: string)
    requires forall j :: 0 <= j < |images| ==> images[j].id != k
    ensures Lookup(FromImages(images), k) == None
    decreases |images|
  {
    if |images| > 0 {
      var n := |images|;
      var init, last := images[..n - 1], images[n - 1];
      AssignLookup(FromImages(init), last.id, last.imageBase64, k);
      AbsentIdHasNoEntry(init, k);
    }
  }
}
