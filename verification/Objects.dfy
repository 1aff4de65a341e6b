/**
 Git objects, addressed by content.

 An object id is modelled by the object it names, so equal ids mean equal objects and an
 object can never contain its own id. Dafny's built-in order `x < y` on datatypes then
 reads "x is named somewhere inside y".
 */
module Objects {

  datatype Kind = BlobKind | TreeKind | CommitKind | TagKind

  datatype EntryMode = FileMode | DirectoryMode | GitlinkMode

  datatype Entry = Entry(name: string, mode: EntryMode, oid: Object)

  datatype HeaderKey = Provenance | GpgSig | GpgSigSha256 | MergeTag | OtherHeader(name: string)

  /** A header value is the hexadecimal form of an id, or any other text. */
  datatype HeaderValue = Hex(id: Object) | Text(text: string)

  datatype Header = Header(key: HeaderKey, value: HeaderValue)

  datatype Meta = Meta(author: string, committer: string, encoding: string, message: string)

  datatype Object =
    | Blob(data: string)
    | Tree(entries: seq<Entry>)
    | Commit(tree: Object, parents: seq<Object>, meta: Meta, headers: seq<Header>)
    | Tag(target: Object, targetKind: Kind, text: string)
  {
    function Kind(): Kind {
      match this
      case Blob(_) => BlobKind
      case Tree(_) => TreeKind
      case Commit(_, _, _, _) => CommitKind
      case Tag(_, _, _) => TagKind
    }
  }

  datatype Result<+T> = Ok(value: T) | Err(error: Error)

  datatype Error =
    | Missing(id: Object)
    | WrongKind(id: Object)
    | Cycle(id: Object)
    | Ambiguous(id: Object)
    | Incomplete
    | Contradictory(id: Object)
    | Unproven(id: Object)
    | RefConflict
    | Unwritten
    | WrongWitness

  /** A child id together with the kind that the parent object says it has. */
  datatype Link = Link(id: Object, kind: Kind)

  /** The links of an object. A commit in `cut` keeps its tree and loses its parents. */
  function Links(cut: set<Object>, o: Object): seq<Link> {
    match o
    case Blob(_) => []
    case Tree(entries) => EntryLinks(entries)
    case Commit(tree, parents, _, _) =>
      [Link(tree, TreeKind)] + if o in cut then [] else seq(|parents|, i requires 0 <= i < |parents| => Link(parents[i], CommitKind))
    case Tag(target, kind, _) => [Link(target, kind)]
  }

  /** What a tree entry says about the object it names; a submodule entry says nothing. */
  predicate Holds(e: Entry, kind: Kind) {
    (e.mode.DirectoryMode? && kind == TreeKind) || (e.mode.FileMode? && kind == BlobKind)
  }

  /** What an object names, read off its content: entries, tree and parents, or target. */
  ghost predicate Child(cut: set<Object>, o: Object, c: Object, kind: Kind) {
    match o
    case Blob(_) => false
    case Tree(entries) => exists e <- entries :: e.oid == c && Holds(e, kind)
    case Commit(tree, parents, _, _) => (c == tree && kind == TreeKind) || (o !in cut && c in parents && kind == CommitKind)
    case Tag(target, targetKind, _) => c == target && kind == targetKind
  }

  /** The links are exactly that. */
  lemma {:induction false} LinksAreChildren(cut: set<Object>, o: Object, c: Object, kind: Kind)
    ensures Link(c, kind) in Links(cut, o) <==> Child(cut, o, c, kind)
  {
    if o.Commit? && o !in cut && c in o.parents {
      var i :| 0 <= i < |o.parents| && o.parents[i] == c;
      assert Links(cut, o)[i + 1] == Link(c, CommitKind);
    }
  }

  /** Submodule entries name foreign commits and are not links. */
  function EntryLinks(entries: seq<Entry>): (links: seq<Link>)
    ensures forall l <- links :: exists e <- entries :: l.id == e.oid && Holds(e, l.kind)
    ensures forall e <- entries, kind | Holds(e, kind) :: Link(e.oid, kind) in links
  {
    if entries == [] then []
    else
      var rest := EntryLinks(entries[1..]);
      match entries[0].mode
      case GitlinkMode => rest
      case DirectoryMode => [Link(entries[0].oid, TreeKind)] + rest
      case FileMode => [Link(entries[0].oid, BlobKind)] + rest
  }

  lemma {:induction false} LinksAreSmaller(cut: set<Object>, o: Object)
    ensures forall l <- Links(cut, o) :: l.id < o
  {
    forall l | l in Links(cut, o) ensures l.id < o {
      match o
      case Tree(entries) =>
        var e :| e in entries && l.id == e.oid;
        assert e < o;
      case Commit(tree, parents, _, _) =>
      case _ =>
    }
  }

  /** Everything an object reaches through its links, itself included. */
  ghost function Closure(cut: set<Object>, o: Object): set<Object>
    decreases o
  {
    LinksAreSmaller(cut, o);
    {o} + set l, x | l in Links(cut, o) && x in Closure(cut, l.id) :: x
  }

  ghost function ClosureOf(cut: set<Object>, tips: seq<Object>): set<Object> {
    set t, x | t in tips && x in Closure(cut, t) :: x
  }

  ghost predicate Closed(cut: set<Object>, objects: set<Object>) {
    forall o <- objects, l <- Links(cut, o) :: l.id in objects
  }

  lemma {:induction false} ClosureIsTransitive(cut: set<Object>, o: Object, x: Object)
    requires x in Closure(cut, o)
    ensures Closure(cut, x) <= Closure(cut, o)
    decreases o
  {
    if x != o {
      LinksAreSmaller(cut, o);
      var l :| l in Links(cut, o) && x in Closure(cut, l.id);
      ClosureIsTransitive(cut, l.id, x);
    }
  }

  /** The closure of some tips contains the tips and is closed under links. */
  lemma {:induction false} ClosureOfIsClosed(cut: set<Object>, tips: seq<Object>)
    ensures forall t <- tips :: t in ClosureOf(cut, tips)
    ensures Closed(cut, ClosureOf(cut, tips))
  {
    forall t | t in tips ensures t in ClosureOf(cut, tips) {
      assert t in Closure(cut, t);
    }
    forall o, l | o in ClosureOf(cut, tips) && l in Links(cut, o) ensures l.id in ClosureOf(cut, tips) {
      var t :| t in tips && o in Closure(cut, t);
      ClosureHasLinks(cut, t, o, l);
    }
  }

  lemma {:induction false} ClosureHasLinks(cut: set<Object>, o: Object, x: Object, l: Link)
    requires x in Closure(cut, o) && l in Links(cut, x)
    ensures l.id in Closure(cut, o)
    decreases o
  {
    LinksAreSmaller(cut, o);
    if x == o {
      assert l.id in Closure(cut, l.id);
    } else {
      var m :| m in Links(cut, o) && x in Closure(cut, m.id);
      ClosureHasLinks(cut, m.id, x, l);
    }
  }

  lemma {:induction false} ClosedContainsClosure(cut: set<Object>, objects: set<Object>, o: Object)
    requires Closed(cut, objects) && o in objects
    ensures Closure(cut, o) <= objects
    decreases o
  {
    LinksAreSmaller(cut, o);
    forall l | l in Links(cut, o) ensures Closure(cut, l.id) <= objects {
      ClosedContainsClosure(cut, objects, l.id);
    }
  }
}
