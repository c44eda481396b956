/**
  The command-line driver: check the output name, refuse directories without
  `-r`, then walk the inputs and put one page per discovered picture into the
  document. Argument parsing is not modelled: the parsed arguments are the input,
  each positional path paired with the node it resolves to.
 */
module Cli {

  import opened PathNames
  import opened Discovery
  import opened Document

  datatype Args = Args(file: Path, images: seq<Input>, recursive: bool)

  /** Why a run stopped before opening the output file. */
  datatype Refusal = BadExtension | DirectoryWithoutRecursive

  /** The line printed for each refusal. */
  function Message(reason: Refusal): string
  {
    match reason
    case BadExtension => "File name should has .pdf extension"
    case DirectoryWithoutRecursive => "Please use -r option"
  }

  datatype Outcome =
    | Refused(reason: Refusal)     // its message is printed; the output file is never opened
    | Written(document: seq<Page>) // the output file is opened and the document is written to it
    | Crashed                      // the output file is opened, then the walk raised

  predicate OpensOutput(o: Outcome)
  {
    o.Written? || o.Crashed?
  }

  /** `os.path.splitext(file)[1] == ".pdf"`: compared as written, so case matters. */
  predicate PdfName(file: Path)
  {
    Extension(file) == ".pdf"
  }

  /** `any(map(os.path.isdir, images))`. */
  predicate AnyDirectory(images: seq<Input>)
  {
    exists i :: 0 <= i < |images| && images[i].node.Dir?
  }

  /** One run of the tool. The extension test comes first, then the directory test;
      only a run that passes both opens the output file. Pages are appended in
      discovery order, the index passed with each picture being the number of pages
      already there, so every picture lands on the page appended for it. */
  method Run(args: Args) returns (o: Outcome)
    ensures o == Refused(BadExtension) <==> !PdfName(args.file)
    ensures o == Refused(DirectoryWithoutRecursive) <==>
              PdfName(args.file) && !args.recursive && AnyDirectory(args.images)
    ensures OpensOutput(o) <==>
              PdfName(args.file) && (args.recursive || !AnyDirectory(args.images))
    ensures o.Crashed? <==> OpensOutput(o) && ListImages(args.images, args.recursive).raised
    ensures o.Written? ==> o.document == ComposedPages(ListImages(args.images, args.recursive).yielded)
    ensures OpensOutput(o) && AllCoherent(args.images) ==>
              o.Written? && |o.document| == |ImagePaths(WalkInputs(args.images, args.recursive))|
  {
    if !PdfName(args.file) {
      return Refused(BadExtension);
    }
    if !args.recursive && AnyDirectory(args.images) {
      return Refused(DirectoryWithoutRecursive);
    }
    o := Convert(args.images, args.recursive);
  }

  /** Past both checks: the output is opened, discovery drives the page loop, and
      the document is written unless discovery raised. */
  method Convert(images: seq<Input>, recursive: bool) returns (o: Outcome)
    ensures OpensOutput(o)
    ensures o.Crashed? <==> ListImages(images, recursive).raised
    ensures o.Written? ==> o.document == ComposedPages(ListImages(images, recursive).yielded)
    ensures AllCoherent(images) ==>
              o.Written? && |o.document| == |ImagePaths(WalkInputs(images, recursive))|
  {
    var found := ListImages(images, recursive);
    if AllCoherent(images) {
      ListImagesIsWalkFilter(images, recursive);
    }
    var doc := AppendPages(found.yielded);
    if found.raised {
      return Crashed;
    }
    return Written(doc);
  }

  /** Every positional path is coherent with the file system it resolves in. */
  predicate AllCoherent(images: seq<Input>)
  {
    forall i :: 0 <= i < |images| ==> Coherent(images[i])
  }

  /** The loop `for ix, img_path in enumerate(...)`: each picture is inserted with the
      number of pages already in the document as its index, so page `ix` fetched after
      the blank page is appended is always that new page, and the document ends with
      one page per picture, in order. */
  method AppendPages(sources: seq<Path>) returns (doc: seq<Page>)
    ensures |doc| == |sources|
    ensures forall i :: 0 <= i < |sources| ==> doc[i] == ComposedPage(sources[i])
    ensures doc == ComposedPages(sources)
  {
    doc := [];
    var ix := 0;
    while ix < |sources|
      invariant ix <= |sources|
      invariant |doc| == ix
      invariant forall i :: 0 <= i < ix ==> doc[i] == ComposedPage(sources[i])
    {
      var next := InsertImagePage(doc, sources[ix], ix);
      assert next.Some?;
      doc := next.value;
      ix := ix + 1;
    }
    assert forall i :: 0 <= i < |doc| ==> doc[i] == ComposedPages(sources)[i];
  }

}
