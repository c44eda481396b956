/**
  The output document as the tool builds it with the PDF writer: an ordered
  sequence of A5 pages. Rendering a picture to a one-page canvas and merging it
  onto a page are foreign-library work; a page records only which renderings
  were merged onto it, in order.
 */
module Document {

  import opened Optional
  import opened PathNames
  import opened Layout

  /** The one-page rendering of a picture file, merged onto a page. */
  datatype Layer = Rendered(source: Path)

  datatype Page = Page(width: real, height: real, layers: seq<Layer>)

  /** `add_blank_page(*A5)`. */
  const BlankA5: Page := Page(A5Width, A5Height, [])

  /** An A5 page carrying exactly the rendering of `source`. */
  function ComposedPage(source: Path): Page
  {
    Page(A5Width, A5Height, [Rendered(source)])
  }

  /** One composed page per source, in order. */
  function ComposedPages(sources: seq<Path>): seq<Page>
  {
    seq(|sources|, i requires 0 <= i < |sources| => ComposedPage(sources[i]))
  }

  /** `insert_image_page(source, ix)` on the writer's pages `doc`: append a blank A5
      page, fetch page `ix` (a page that does not exist raises, giving `None`) and
      merge the rendering of `source` onto it. */
  function InsertImagePage(doc: seq<Page>, source: Path, ix: nat): (r: Option<seq<Page>>)
    ensures r.Some? <==> ix <= |doc|
    ensures r.Some? ==> |r.value| == |doc| + 1
    ensures r.Some? ==> forall i :: 0 <= i < |doc| && i != ix ==> r.value[i] == doc[i]
    ensures r.Some? ==> |r.value[ix].layers| > 0 && r.value[ix].layers[|r.value[ix].layers| - 1] == Rendered(source)
    ensures r.Some? ==>
              var before := (doc + [BlankA5])[ix];
              && r.value[ix].width == before.width
              && r.value[ix].height == before.height
              && r.value[ix].layers[..|r.value[ix].layers| - 1] == before.layers
    ensures ix == |doc| ==> r == Some(doc + [ComposedPage(source)])
    ensures ix < |doc| ==> r.value[|doc|] == BlankA5
  {
    var grown := doc + [BlankA5];
    if ix < |grown| then
      var page := grown[ix];
      var merged := grown[ix := page.(layers := page.layers + [Rendered(source)])];
      assert ix == |doc| ==> merged == doc + [ComposedPage(source)] by {
        if ix == |doc| {
          assert page.layers + [Rendered(source)] == [Rendered(source)];
          assert merged[ix] == ComposedPage(source);
          assert forall i :: 0 <= i < |merged| ==> merged[i] == (doc + [ComposedPage(source)])[i];
        }
      }
      Some(merged)
    else
      None
  }

}
