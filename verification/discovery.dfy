/**
  Image discovery (`list_images`). The file system is a snapshot tree: every
  input path comes with the node it resolves to, and a directory node carries
  its listing, in listing order. The content sniffer (`imghdr.what`) is not
  interpreted: a file node records whatever it answered for that file.

  The generator is modelled as the finite stream of paths it yields, plus
  whether it stopped by raising an exception: `os.listdir` on a path that is
  not a directory raises, and the "." / ".." branch does exactly that.
 */
module Discovery {

  import opened Optional
  import opened PathNames

  /** The sniffer answers that count as images. */
  const SupportedFormats: seq<string> := ["png", "jpeg", "jpg", "bmp", "gif", "webp", "avif"]

  datatype Node =
    | Missing                       // `os.path.exists` is false
    | File(sniffed: Option<string>) // a regular file, with the sniffer's answer for it
    | Dir(listing: seq<Child>)      // a directory and its `os.listdir`, in order
    | Other                         // exists, but is neither a regular file nor a directory

  datatype Child = Child(name: string, node: Node)

  /** A path as given to the walk, with the node it resolves to. */
  datatype Input = Input(path: Path, node: Node)

  predicate IsImage(n: Node)
  {
    n.File? && n.sniffed.Some? && n.sniffed.value in SupportedFormats
  }

  /** What a generator produced: the paths it yielded, and whether it then raised. */
  datatype Stream = Stream(yielded: seq<Path>, raised: bool)

  const Done: Stream := Stream([], false)

  /** `os.listdir` on something that is not a directory raises before yielding anything. */
  const ListDirRaises: Stream := Stream([], true)

  /** Run `a`, then `b` unless `a` raised. */
  function Then(a: Stream, b: Stream): Stream
  {
    if a.raised then a else Stream(a.yielded + b.yielded, b.raised)
  }

  lemma ThenAssociative(a: Stream, b: Stream, c: Stream)
    ensures Then(Then(a, b), c) == Then(a, Then(b, c))
  {
    if !a.raised && !b.raised {
      assert (a.yielded + b.yielded) + c.yielded == a.yielded + (b.yielded + c.yielded);
    }
  }

  /** `list_images(inputs, recursive)`. */
  function ListImages(inputs: seq<Input>, recursive: bool): (s: Stream)
    ensures s.raised ==> recursive
    ensures |s.yielded| <= |inputs| || recursive
  {
    if |inputs| == 0 then Done
    else Then(Visit(inputs[0].path, inputs[0].node, recursive), ListImages(inputs[1..], recursive))
  }

  /** One iteration of the loop over the inputs. */
  function Visit(path: Path, node: Node, recursive: bool): (s: Stream)
    ensures s.raised ==> recursive
    ensures node.Missing? ==> s == Done
    ensures !recursive ==> s.yielded <= [path]
    decreases node, 1
  {
    if node.Missing? then Done
    else
      var own := Stream(if IsImage(node) then [path] else [], false);
      var nested :=
        if !recursive then Done
        else if node.Dir? then ListChildren(path, node.listing, recursive)
        else if BaseName(path) == CurDir || BaseName(path) == ParDir then ListDirRaises
        else Done;
      Then(own, nested)
  }

  /** The recursive call on a directory: its listing, each name joined onto the directory path. */
  function ListChildren(dir: Path, listing: seq<Child>, recursive: bool): (s: Stream)
    ensures s.raised ==> recursive
    decreases listing, 0
  {
    if |listing| == 0 then Done
    else
      Then(Visit(Join(dir, listing[0].name), listing[0].node, recursive),
           ListChildren(dir, listing[1..], recursive))
  }

  /** The argument the source builds for the recursive call on a directory. */
  function Qualify(dir: Path, listing: seq<Child>): (inputs: seq<Input>)
    ensures |inputs| == |listing|
    ensures WellFormed(Dir(listing)) ==>
              forall i :: 0 <= i < |inputs| ==>
                dir <= inputs[i].path && BaseName(inputs[i].path) == listing[i].name
  {
    seq(|listing|, i requires 0 <= i < |listing| => Input(Join(dir, listing[i].name), listing[i].node))
  }

  // ---------------------------------------------------------------------------
  // Reference definitions: the traversal order, and filtering for images.
  // ---------------------------------------------------------------------------

  /** The paths of the entries that are images, in order. */
  function ImagePaths(entries: seq<Input>): (r: seq<Path>)
    ensures |r| <= |entries|
    ensures forall q :: q in r <==>
              exists i :: 0 <= i < |entries| && entries[i].path == q && IsImage(entries[i].node)
  {
    if |entries| == 0 then []
    else
      var rest := ImagePaths(entries[1..]);
      assert forall i :: 1 <= i < |entries| ==> entries[i] == entries[1..][i - 1];
      if IsImage(entries[0].node) then [entries[0].path] + rest else rest
  }

  lemma {:induction false} ImagePathsAppend(a: seq<Input>, b: seq<Input>)
    ensures ImagePaths(a + b) == ImagePaths(a) + ImagePaths(b)
  {
    if |a| == 0 {
      assert a + b == b;
    } else {
      assert (a + b)[1..] == a[1..] + b;
      ImagePathsAppend(a[1..], b);
    }
  }

  /** Every existing entry the walk reaches, in the order it reaches them. */
  function WalkInputs(inputs: seq<Input>, recursive: bool): seq<Input>
  {
    if |inputs| == 0 then []
    else WalkNode(inputs[0].path, inputs[0].node, recursive) + WalkInputs(inputs[1..], recursive)
  }

  function WalkNode(path: Path, node: Node, recursive: bool): seq<Input>
    decreases node, 1
  {
    if node.Missing? then []
    else [Input(path, node)] + (if recursive && node.Dir? then WalkListing(path, node.listing, recursive) else [])
  }

  function WalkListing(dir: Path, listing: seq<Child>, recursive: bool): seq<Input>
    decreases listing, 0
  {
    if |listing| == 0 then []
    else WalkNode(Join(dir, listing[0].name), listing[0].node, recursive) + WalkListing(dir, listing[1..], recursive)
  }

  /** The stream yields a prefix of `full`, and all of it unless it raised. */
  predicate Approximates(s: Stream, full: seq<Path>)
  {
    s.yielded <= full && (!s.raised ==> s.yielded == full)
  }

  lemma ThenApproximates(a: Stream, b: Stream, x: seq<Path>, y: seq<Path>)
    requires Approximates(a, x) && Approximates(b, y)
    ensures Approximates(Then(a, b), x + y)
  {
    if a.raised {
      assert a.yielded <= x;
      assert x <= x + y;
    }
  }

  /** Discovery is the image filter of the walk, cut short where the walk raises. */
  lemma {:induction false} ListImagesApproximatesWalk(inputs: seq<Input>, recursive: bool)
    ensures Approximates(ListImages(inputs, recursive), ImagePaths(WalkInputs(inputs, recursive)))
  {
    if |inputs| > 0 {
      var w := WalkNode(inputs[0].path, inputs[0].node, recursive);
      VisitApproximatesWalk(inputs[0].path, inputs[0].node, recursive);
      ListImagesApproximatesWalk(inputs[1..], recursive);
      ImagePathsAppend(w, WalkInputs(inputs[1..], recursive));
      ThenApproximates(Visit(inputs[0].path, inputs[0].node, recursive), ListImages(inputs[1..], recursive),
                       ImagePaths(w), ImagePaths(WalkInputs(inputs[1..], recursive)));
    }
  }

  lemma {:induction false} VisitApproximatesWalk(path: Path, node: Node, recursive: bool)
    ensures Approximates(Visit(path, node, recursive), ImagePaths(WalkNode(path, node, recursive)))
    decreases node, 1
  {
    if !node.Missing? {
      var own := Stream(if IsImage(node) then [path] else [], false);
      var nested :=
        if !recursive then Done
        else if node.Dir? then ListChildren(path, node.listing, recursive)
        else if BaseName(path) == CurDir || BaseName(path) == ParDir then ListDirRaises
        else Done;
      var below := if recursive && node.Dir? then WalkListing(path, node.listing, recursive) else [];
      if recursive && node.Dir? {
        ListChildrenApproximatesWalk(path, node.listing, recursive);
      }
      assert Approximates(nested, ImagePaths(below));
      assert ImagePaths([Input(path, node)]) == own.yielded;
      ImagePathsAppend([Input(path, node)], below);
      ThenApproximates(own, nested, own.yielded, ImagePaths(below));
    }
  }

  lemma {:induction false} ListChildrenApproximatesWalk(dir: Path, listing: seq<Child>, recursive: bool)
    ensures Approximates(ListChildren(dir, listing, recursive), ImagePaths(WalkListing(dir, listing, recursive)))
    decreases listing, 0
  {
    if |listing| > 0 {
      var p := Join(dir, listing[0].name);
      VisitApproximatesWalk(p, listing[0].node, recursive);
      ListChildrenApproximatesWalk(dir, listing[1..], recursive);
      ImagePathsAppend(WalkNode(p, listing[0].node, recursive), WalkListing(dir, listing[1..], recursive));
      ThenApproximates(Visit(p, listing[0].node, recursive), ListChildren(dir, listing[1..], recursive),
                       ImagePaths(WalkNode(p, listing[0].node, recursive)),
                       ImagePaths(WalkListing(dir, listing[1..], recursive)));
    }
  }

  // ---------------------------------------------------------------------------
  // Properties of the walk.
  // ---------------------------------------------------------------------------

  /** Without `-r` the walk is an order-preserving filter of the inputs: exactly the
      ones that exist, are regular files and sniff as a supported format. */
  lemma {:induction false} NonRecursiveIsFilter(inputs: seq<Input>)
    ensures ListImages(inputs, false) == Stream(ImagePaths(inputs), false)
  {
    if |inputs| > 0 {
      NonRecursiveIsFilter(inputs[1..]);
      var n := inputs[0].node;
      assert Visit(inputs[0].path, n, false) == Stream(if IsImage(n) then [inputs[0].path] else [], false);
    }
  }

  /** Inputs are handled in order: everything from `a` comes before anything from `b`,
      and `b` is not looked at once `a` raised. */
  lemma {:induction false} ListImagesAppend(a: seq<Input>, b: seq<Input>, recursive: bool)
    ensures ListImages(a + b, recursive) == Then(ListImages(a, recursive), ListImages(b, recursive))
  {
    if |a| == 0 {
      assert a + b == b;
    } else {
      assert (a + b)[0] == a[0];
      assert (a + b)[1..] == a[1..] + b;
      ListImagesAppend(a[1..], b, recursive);
      ThenAssociative(Visit(a[0].path, a[0].node, recursive), ListImages(a[1..], recursive), ListImages(b, recursive));
    }
  }

  /** With `-r`, a directory contributes exactly what the walk over its listing,
      each name joined onto the directory path, yields. */
  lemma {:induction false} ListChildrenIsListImages(dir: Path, listing: seq<Child>, recursive: bool)
    ensures ListChildren(dir, listing, recursive) == ListImages(Qualify(dir, listing), recursive)
  {
    if |listing| > 0 {
      assert Qualify(dir, listing)[1..] == Qualify(dir, listing[1..]);
      ListChildrenIsListImages(dir, listing[1..], recursive);
    }
  }

  lemma RecursiveDirectory(path: Path, listing: seq<Child>)
    ensures Visit(path, Dir(listing), true) == ListImages(Qualify(path, listing), true)
  {
    ListChildrenIsListImages(path, listing, true);
    assert Visit(path, Dir(listing), true) == Then(Done, ListChildren(path, listing, true));
  }

  /** A snapshot a POSIX file system can produce: listing names are real names, all the way down. */
  predicate WellFormed(n: Node)
    decreases n
  {
    n.Dir? ==> forall i :: 0 <= i < |n.listing| ==>
                 ValidName(n.listing[i].name) && WellFormed(n.listing[i].node)
  }

  /** A path whose last component is "." or ".." resolves to a directory or to nothing. */
  predicate Coherent(e: Input)
  {
    && ((BaseName(e.path) == CurDir || BaseName(e.path) == ParDir) ==> e.node.Dir? || e.node.Missing?)
    && WellFormed(e.node)
  }

  /** On a coherent snapshot the "." / ".." branch is never taken, so the walk never raises. */
  lemma {:induction false} CoherentNeverRaises(inputs: seq<Input>, recursive: bool)
    requires forall i :: 0 <= i < |inputs| ==> Coherent(inputs[i])
    ensures !ListImages(inputs, recursive).raised
  {
    if |inputs| > 0 {
      VisitNeverRaises(inputs[0].path, inputs[0].node, recursive);
      CoherentNeverRaises(inputs[1..], recursive);
    }
  }

  lemma {:induction false} VisitNeverRaises(path: Path, node: Node, recursive: bool)
    requires Coherent(Input(path, node))
    ensures !Visit(path, node, recursive).raised
    decreases node, 1
  {
    if recursive && node.Dir? {
      ListChildrenNeverRaises(path, node.listing, recursive);
    }
  }

  lemma {:induction false} ListChildrenNeverRaises(dir: Path, listing: seq<Child>, recursive: bool)
    requires WellFormed(Dir(listing))
    ensures !ListChildren(dir, listing, recursive).raised
    decreases listing, 0
  {
    if |listing| > 0 {
      var c := listing[0];
      assert ValidName(c.name) && WellFormed(c.node);
      assert BaseName(Join(dir, c.name)) == c.name;
      VisitNeverRaises(Join(dir, c.name), c.node, recursive);
      assert WellFormed(Dir(listing[1..])) by {
        forall i | 0 <= i < |listing[1..]|
          ensures ValidName(listing[1..][i].name) && WellFormed(listing[1..][i].node)
        {
          assert listing[1..][i] == listing[i + 1];
        }
      }
      ListChildrenNeverRaises(dir, listing[1..], recursive);
    }
  }

  /** On a coherent snapshot, discovery yields exactly the images of the walk, in walk order:
      every existing regular file with a supported format, at any depth, once per visit. */
  lemma ListImagesIsWalkFilter(inputs: seq<Input>, recursive: bool)
    requires forall i :: 0 <= i < |inputs| ==> Coherent(inputs[i])
    ensures ListImages(inputs, recursive) == Stream(ImagePaths(WalkInputs(inputs, recursive)), false)
  {
    CoherentNeverRaises(inputs, recursive);
    ListImagesApproximatesWalk(inputs, recursive);
  }

  /** Whatever is yielded, at any depth, is the path of an existing regular file with a
      supported format that the walk reached. */
  lemma YieldedAreImages(inputs: seq<Input>, recursive: bool, q: Path)
    requires q in ListImages(inputs, recursive).yielded
    ensures exists e :: e in WalkInputs(inputs, recursive) && e.path == q && IsImage(e.node)
  {
    ListImagesApproximatesWalk(inputs, recursive);
    var w := WalkInputs(inputs, recursive);
    assert ListImages(inputs, recursive).yielded <= ImagePaths(w);
    assert q in ImagePaths(w);
    var i :| 0 <= i < |w| && w[i].path == q && IsImage(w[i].node);
    assert w[i] in w;
  }

  /** Every entry reached from a path has that path as a prefix. */
  lemma {:induction false} WalkNodeUnder(path: Path, node: Node, recursive: bool)
    requires WellFormed(node)
    ensures forall e :: e in WalkNode(path, node, recursive) ==> path <= e.path
    decreases node, 1
  {
    if !node.Missing? && recursive && node.Dir? {
      var below := WalkListing(path, node.listing, recursive);
      WalkListingUnderDir(path, node.listing, recursive);
      assert WalkNode(path, node, recursive) == [Input(path, node)] + below;
    }
  }

  /** Every entry reached below a directory has the directory path as a prefix. */
  lemma {:induction false} WalkListingUnderDir(dir: Path, listing: seq<Child>, recursive: bool)
    requires WellFormed(Dir(listing))
    ensures forall e :: e in WalkListing(dir, listing, recursive) ==> dir <= e.path
    decreases listing, 0
  {
    if |listing| > 0 {
      var c := listing[0];
      var p := Join(dir, c.name);
      assert ValidName(c.name) && WellFormed(c.node);
      assert dir <= p;
      WalkNodeUnder(p, c.node, recursive);
      assert WellFormed(Dir(listing[1..])) by {
        forall i | 0 <= i < |listing[1..]|
          ensures ValidName(listing[1..][i].name) && WellFormed(listing[1..][i].node)
        {
          assert listing[1..][i] == listing[i + 1];
        }
      }
      WalkListingUnderDir(dir, listing[1..], recursive);
      var head := WalkNode(p, c.node, recursive);
      var tail := WalkListing(dir, listing[1..], recursive);
      assert WalkListing(dir, listing, recursive) == head + tail;
      forall e | e in head
        ensures dir <= e.path
      {
        PrefixTransitive(dir, p, e.path);
      }
    }
  }

  lemma PrefixTransitive(a: string, b: string, c: string)
    requires a <= b && b <= c
    ensures a <= c
  {
    assert b[..|a|] == a;
    assert c[..|b|][..|a|] == c[..|a|];
  }

  /** With `-r`, every path a directory contributes is joined onto the directory path. */
  lemma DirectoryYieldsUnderIt(dir: Path, listing: seq<Child>, q: Path)
    requires WellFormed(Dir(listing))
    requires q in Visit(dir, Dir(listing), true).yielded
    ensures dir <= q
  {
    assert Visit(dir, Dir(listing), true) == Then(Done, ListChildren(dir, listing, true));
    ListChildrenApproximatesWalk(dir, listing, true);
    var w := WalkListing(dir, listing, true);
    assert q in ImagePaths(w);
    var i :| 0 <= i < |w| && w[i].path == q && IsImage(w[i].node);
    assert w[i] in w;
    WalkListingUnderDir(dir, listing, true);
  }

}
