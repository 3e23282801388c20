/** The catalogue of ExtFS: a list of items that is also a tree, addressed by CNID. */
module ExtFs {
  import opened Bytes

  const ROOT_PARENT_ID: nat := 1
  const ROOT_ID: nat := 2
  const FIRST_CNID: nat := 16         // fsUsrCNID

  /** An item; `parent` is the position of the parent in the list, where items stay for
      ever. The root's parent has itself there and is never asked for it. */
  datatype Item = Item(id: nat, parentId: nat, parent: nat, name: string, guestName: string)

  datatype Catalogue = Catalogue(items: seq<Item>, nextCnid: nat)

  /** The character set conversions between host and guest, on C strings. */
  datatype Encoding = Encoding(toGuest: string -> string, toHost: string -> string)

  /** strncpy into a 32-byte buffer that ends with NUL. */
  function Cut(s: string): (r: string)
    ensures |r| <= 31
  {
    if |s| <= 31 then s else s[..31]
  }

  // ---------------------------------------------------------------- the operations

  /** `ExtFSInit` */
  function Init(volume: string, enc: Encoding): Catalogue {
    Catalogue([Item(ROOT_PARENT_ID, 0, 0, "", ""),
               Item(ROOT_ID, ROOT_PARENT_ID, 0, volume, Cut(enc.toGuest(volume)))], FIRST_CNID)
  }

  /** `create_fsitem` */
  function Created(c: Catalogue, name: string, guest: string, parent: nat): Catalogue
    requires parent < |c.items|
  {
    Catalogue(c.items + [Item(c.nextCnid, c.items[parent].id, parent, name, Cut(guest))], c.nextCnid + 1)
  }

  predicate IsChild(c: Catalogue, i: nat, parent: nat)
    requires i < |c.items|
  {
    i > 0 && c.items[i].parent == parent
  }

  /** The first item from i on with the given host name and parent; |items| for none. */
  function FindName(c: Catalogue, name: string, parent: nat, i: nat): (k: nat)
    requires i <= |c.items|
    ensures i <= k <= |c.items|
    ensures k < |c.items| ==> IsChild(c, k, parent) && c.items[k].name == name
    ensures forall j :: i <= j < k ==> !(IsChild(c, j, parent) && c.items[j].name == name)
    decreases |c.items| - i
  {
    if i == |c.items| || (IsChild(c, i, parent) && c.items[i].name == name) then i else FindName(c, name, parent, i + 1)
  }

  function FindGuest(c: Catalogue, guest: string, parent: nat, i: nat): (k: nat)
    requires i <= |c.items|
    ensures i <= k <= |c.items|
    ensures k < |c.items| ==> IsChild(c, k, parent) && c.items[k].guestName == guest
    ensures forall j :: i <= j < k ==> !(IsChild(c, j, parent) && c.items[j].guestName == guest)
    decreases |c.items| - i
  {
    if i == |c.items| || (IsChild(c, i, parent) && c.items[i].guestName == guest) then i
    else FindGuest(c, guest, parent, i + 1)
  }

  /** `find_fsitem`: the catalogue afterwards; the item is at FindName of the old one. */
  function FoundName(c: Catalogue, name: string, parent: nat, enc: Encoding): Catalogue
    requires parent < |c.items|
  {
    if FindName(c, name, parent, 0) < |c.items| then c else Created(c, name, enc.toGuest(name), parent)
  }

  /** `find_fsitem_guest` */
  function FoundGuest(c: Catalogue, guest: string, parent: nat, enc: Encoding): Catalogue
    requires parent < |c.items|
  {
    if FindGuest(c, guest, parent, 0) < |c.items| then c else Created(c, enc.toHost(guest), guest, parent)
  }

  /** The first item from i on with the id; |items| for none. */
  function FindId(c: Catalogue, id: nat, i: nat): (k: nat)
    requires i <= |c.items|
    ensures i <= k <= |c.items| && (k < |c.items| ==> c.items[k].id == id)
    ensures forall j :: i <= j < k ==> c.items[j].id != id
    decreases |c.items| - i
  {
    if i == |c.items| || c.items[i].id == id then i else FindId(c, id, i + 1)
  }

  function Swapped(x: nat, a: nat, b: nat): nat { if x == a then b else if x == b then a else x }

  /** The id swap after a rename or a move: `swap_parent_ids`, then the ids of the two items. */
  function SwappedIds(c: Catalogue, i: nat, j: nat): (c': Catalogue)
    requires i < |c.items| && j < |c.items|
    ensures |c'.items| == |c.items|
  {
    var a, b := c.items[i].id, c.items[j].id;
    c.(items := seq(|c.items|, k requires 0 <= k < |c.items| =>
         var p := c.items[k].(parentId := Swapped(c.items[k].parentId, a, b));
         if k == i then p.(id := b) else if k == j then p.(id := a) else p))
  }

  // ---------------------------------------------------------------- the tree

  /** Ids are distinct and below the next one; every item but the first has its parent
      earlier in the list and knows the parent's id; the first two are the root's parent
      and the root. */
  ghost predicate WellFormed(c: Catalogue) {
    |c.items| >= 2 && c.nextCnid >= FIRST_CNID &&
    c.items[0].id == ROOT_PARENT_ID && c.items[1].id == ROOT_ID &&
    (forall i :: 0 <= i < |c.items| ==> c.items[i].id < c.nextCnid) &&
    (forall i, j :: 0 <= i < j < |c.items| ==> c.items[i].id != c.items[j].id) &&
    (forall i :: 0 < i < |c.items| ==> c.items[i].parent < i) &&
    (forall i :: 0 < i < |c.items| ==> c.items[i].parentId == c.items[c.items[i].parent].id)
  }

  lemma CreatedWellFormed(c: Catalogue, name: string, guest: string, parent: nat)
    requires WellFormed(c) && parent < |c.items|
    ensures WellFormed(Created(c, name, guest, parent))
  {
  }

  lemma SwapIsSwap(c: Catalogue, i: nat, j: nat)
    requires WellFormed(c) && i < |c.items| && j < |c.items|
    ensures var a, b := c.items[i].id, c.items[j].id;
      forall k :: 0 <= k < |c.items| ==>
        SwappedIds(c, i, j).items[k] ==
          c.items[k].(id := Swapped(c.items[k].id, a, b), parentId := Swapped(c.items[k].parentId, a, b))
  {
  }

  /** The swap of two items below the root keeps the tree. */
  lemma SwapWellFormed(c: Catalogue, i: nat, j: nat)
    requires WellFormed(c) && 2 <= i < |c.items| && 2 <= j < |c.items|
    ensures WellFormed(SwappedIds(c, i, j))
  {
    SwapIsSwap(c, i, j);
    hide SwappedIds;
  }

  // ---------------------------------------------------------------- paths

  /** `get_path_for_fsitem`, by components: it stops at the root, whose path is given,
      and at the root's parent, whose path is empty. */
  function Path(c: Catalogue, root: string, i: nat): seq<string>
    requires WellFormed(c) && i < |c.items|
    decreases i
  {
    if c.items[i].id == ROOT_PARENT_ID then []
    else if c.items[i].id == ROOT_ID then [root]
    else Path(c, root, c.items[i].parent) + [c.items[i].name]
  }

  /** The item is the root or lies below it. */
  predicate InVolume(c: Catalogue, i: nat)
    requires WellFormed(c) && i < |c.items|
    decreases i
  {
    i == 1 || (i > 1 && InVolume(c, c.items[i].parent))
  }

  /** The path of an item of the volume begins with the path of the root, and goes on with the
      names of the items on the way down to it. */
  lemma {:induction false} PathFromRoot(c: Catalogue, root: string, i: nat)
    requires WellFormed(c) && i < |c.items| && InVolume(c, i)
    ensures Path(c, root, i) != [] && Path(c, root, i)[0] == root
    ensures i == 1 <==> Path(c, root, i) == [root]
    ensures i > 1 ==> Path(c, root, i) == Path(c, root, c.items[i].parent) + [c.items[i].name]
    decreases i
  {
    if i > 1 { PathFromRoot(c, root, c.items[i].parent); }
  }

  /** Swapping ids below the root changes no item's path. */
  lemma {:induction false} SwapKeepsPaths(c: Catalogue, root: string, i: nat, j: nat, k: nat)
    requires WellFormed(c) && 2 <= i < |c.items| && 2 <= j < |c.items| && k < |c.items|
    requires WellFormed(SwappedIds(c, i, j))
    ensures Path(SwappedIds(c, i, j), root, k) == Path(c, root, k)
    decreases k
  {
    if k > 1 {
      SwapKeepsPaths(c, root, i, j, c.items[k].parent);
    }
  }

  lemma FindIdIs(c: Catalogue, i: nat)
    requires WellFormed(c) && i < |c.items|
    ensures FindId(c, c.items[i].id, 0) == i
  {
  }

  /** After the swap the old id names the new item, under the path the new item had
      before, and the new id names the old one. */
  lemma SwapResolves(c: Catalogue, root: string, i: nat, j: nat)
    requires WellFormed(c) && 2 <= i < |c.items| && 2 <= j < |c.items|
    ensures var c' := SwappedIds(c, i, j);
      WellFormed(c') &&
      FindId(c', c.items[i].id, 0) == j && Path(c', root, j) == Path(c, root, j) &&
      FindId(c', c.items[j].id, 0) == i && Path(c', root, i) == Path(c, root, i)
  {
    SwapWellFormed(c, i, j);
    SwapKeepsPaths(c, root, i, j, i);
    SwapKeepsPaths(c, root, i, j, j);
    FindIdIs(SwappedIds(c, i, j), i);
    FindIdIs(SwappedIds(c, i, j), j);
  }

  /** All other ids keep their item and their path. */
  lemma OtherIdsKept(c: Catalogue, root: string, i: nat, j: nat, k: nat)
    requires WellFormed(c) && 2 <= i < |c.items| && 2 <= j < |c.items| && k < |c.items| && k != i && k != j
    ensures var c' := SwappedIds(c, i, j);
      WellFormed(c') && FindId(c', c.items[k].id, 0) == k && Path(c', root, k) == Path(c, root, k)
  {
    SwapWellFormed(c, i, j);
    SwapKeepsPaths(c, root, i, j, k);
    FindIdIs(SwappedIds(c, i, j), k);
  }

  // ---------------------------------------------------------------- runs

  /** What the file system does to the catalogue: look-ups by host name (directory
      listings, moves) and by guest name (paths), and the id swap of two items below
      the root. */
  datatype Op = ByName(name: string, parent: nat) | ByGuest(guest: string, parent: nat) | Swap(i: nat, j: nat)

  /** Guest names come in Str31 form. */
  predicate Possible(c: Catalogue, op: Op) {
    match op
    case ByName(_, p) => p < |c.items|
    case ByGuest(g, p) => |g| <= 31 && p < |c.items|
    case Swap(i, j) => 2 <= i < |c.items| && 2 <= j < |c.items|
  }

  function Do(c: Catalogue, op: Op, enc: Encoding): Catalogue
    requires Possible(c, op)
  {
    match op
    case ByName(n, p) => FoundName(c, n, p, enc)
    case ByGuest(g, p) => FoundGuest(c, g, p, enc)
    case Swap(i, j) => SwappedIds(c, i, j)
  }

  predicate PossibleRun(c: Catalogue, run: List<Op>, enc: Encoding)
    decreases run
  {
    run.Cons? ==> Possible(c, run.head) && PossibleRun(Do(c, run.head, enc), run.tail, enc)
  }

  function After(c: Catalogue, run: List<Op>, enc: Encoding): Catalogue
    requires PossibleRun(c, run, enc)
    decreases run
  {
    if run.Nil? then c else After(Do(c, run.head, enc), run.tail, enc)
  }

  lemma DoWellFormed(c: Catalogue, op: Op, enc: Encoding)
    requires WellFormed(c) && Possible(c, op)
    ensures WellFormed(Do(c, op, enc))
  {
    match op {
      case ByName(n, p) => CreatedWellFormed(c, n, enc.toGuest(n), p);
      case ByGuest(g, p) => CreatedWellFormed(c, enc.toHost(g), g, p);
      case Swap(i, j) => SwapWellFormed(c, i, j);
    }
  }

  /** Every reachable catalogue is well formed. */
  lemma {:induction false} RunsWellFormed(c: Catalogue, run: List<Op>, enc: Encoding)
    requires WellFormed(c) && PossibleRun(c, run, enc)
    ensures WellFormed(After(c, run, enc))
    decreases run
  {
    hide Do;
    if run.Cons? {
      DoWellFormed(c, run.head, enc);
      RunsWellFormed(Do(c, run.head, enc), run.tail, enc);
    }
  }

  lemma ReachableWellFormed(volume: string, run: List<Op>, enc: Encoding)
    requires PossibleRun(Init(volume, enc), run, enc)
    ensures WellFormed(After(Init(volume, enc), run, enc))
  {
    RunsWellFormed(Init(volume, enc), run, enc);
  }

  // ---------------------------------------------------------------- one item per name

  /** No two items have the same parent and host name. */
  ghost predicate NoDuplicates(c: Catalogue) {
    forall i, j :: 0 < i < j < |c.items| ==>
      !(c.items[i].parent == c.items[j].parent && c.items[i].name == c.items[j].name)
  }

  /** Converting a guest name to the host's character set and back gives the guest name. */
  ghost predicate RoundTrip(enc: Encoding) {
    forall g: string :: |g| <= 31 ==> Cut(enc.toGuest(enc.toHost(g))) == g
  }

  /** Every item's guest name is what its host name converts to. */
  ghost predicate Matched(c: Catalogue, enc: Encoding) {
    forall i :: 0 < i < |c.items| ==> c.items[i].guestName == Cut(enc.toGuest(c.items[i].name))
  }

  /** Without duplicates no two items of the volume have the same path. */
  lemma {:induction false} PathsDiffer(c: Catalogue, root: string, i: nat, j: nat)
    requires WellFormed(c) && NoDuplicates(c) && i < |c.items| && j < |c.items| && InVolume(c, i) && InVolume(c, j)
    requires Path(c, root, i) == Path(c, root, j)
    ensures i == j
    decreases i
  {
    hide Path, NoDuplicates;
    PathFromRoot(c, root, i);
    PathFromRoot(c, root, j);
    if i > 1 && j > 1 {
      var p, q := Path(c, root, c.items[i].parent), Path(c, root, c.items[j].parent);
      assert p == (p + [c.items[i].name])[..|p|] && |p| == |q|;
      PathsDiffer(c, root, c.items[i].parent, c.items[j].parent);
      OneOfName(c, i, j);
    }
  }

  lemma OneOfName(c: Catalogue, i: nat, j: nat)
    requires NoDuplicates(c) && 0 < i < |c.items| && 0 < j < |c.items|
    requires c.items[i].parent == c.items[j].parent && c.items[i].name == c.items[j].name
    ensures i == j
  {
  }

  /** The ids of the catalogue: 1 above the root, 2 for the root, and from 16 on for the items
      in the order in which they are found; a guest name is cut to 31 characters. */
  lemma FirstIds(volume: string, name: string, enc: Encoding)
    ensures var c := FoundName(Init(volume, enc), name, 1, enc);
      c.items[0].id == 1 && c.items[1].id == 2 && c.items[2].id == 16 && c.items[2].parentId == 2 && |c.items| == 3 &&
      c.items[2].name == name && c.items[2].guestName <= enc.toGuest(name) &&
      |c.items[2].guestName| == if |enc.toGuest(name)| < 31 then |enc.toGuest(name)| else 31
  {
  }

  lemma DoKeepsUnique(c: Catalogue, op: Op, enc: Encoding)
    requires RoundTrip(enc) && Possible(c, op) && |c.items| > 0 && NoDuplicates(c) && Matched(c, enc)
    ensures NoDuplicates(Do(c, op, enc)) && Matched(Do(c, op, enc), enc) && |Do(c, op, enc).items| > 0
  {
    hide NoDuplicates, Matched, Cut;
    match op {
      case ByName(n, p) =>
        if FindName(c, n, p, 0) == |c.items| { CreatedUnique(c, n, enc.toGuest(n), p, enc); }
      case ByGuest(g, p) =>
        if FindGuest(c, g, p, 0) == |c.items| {
          GuestAbsent(c, g, p, enc);
          CreatedUnique(c, enc.toHost(g), g, p, enc);
        }
      case Swap(i, j) => SwapUnique(c, i, j, enc);
    }
  }

  lemma GuestAbsent(c: Catalogue, g: string, p: nat, enc: Encoding)
    requires RoundTrip(enc) && |g| <= 31 && Matched(c, enc) && FindGuest(c, g, p, 0) == |c.items|
    ensures Cut(g) == Cut(enc.toGuest(enc.toHost(g)))
    ensures forall i :: 0 < i < |c.items| && c.items[i].parent == p ==> c.items[i].name != enc.toHost(g)
  {
  }

  lemma CreatedUnique(c: Catalogue, name: string, guest: string, p: nat, enc: Encoding)
    requires p < |c.items| && NoDuplicates(c) && Matched(c, enc) && Cut(guest) == Cut(enc.toGuest(name))
    requires forall i :: 0 < i < |c.items| && c.items[i].parent == p ==> c.items[i].name != name
    ensures NoDuplicates(Created(c, name, guest, p)) && Matched(Created(c, name, guest, p), enc)
  {
    hide Cut;
  }

  lemma SwapUnique(c: Catalogue, i: nat, j: nat, enc: Encoding)
    requires i < |c.items| && j < |c.items| && NoDuplicates(c) && Matched(c, enc)
    ensures NoDuplicates(SwappedIds(c, i, j)) && Matched(SwappedIds(c, i, j), enc)
  {
    hide Cut;
  }

  lemma {:induction false} RunsKeepUnique(c: Catalogue, run: List<Op>, enc: Encoding)
    requires RoundTrip(enc) && PossibleRun(c, run, enc) && |c.items| > 0 && NoDuplicates(c) && Matched(c, enc)
    ensures NoDuplicates(After(c, run, enc))
    decreases run
  {
    hide Do;
    if run.Cons? {
      DoKeepsUnique(c, run.head, enc);
      RunsKeepUnique(Do(c, run.head, enc), run.tail, enc);
    }
  }

  /** A guest name that does not survive the conversions: asking for its host name and
      then for itself makes two items of one name. */
  lemma DuplicateRun(volume: string, enc: Encoding, g: string) returns (run: List<Op>)
    requires |g| <= 31 && Cut(enc.toGuest(enc.toHost(g))) != g
    ensures PossibleRun(Init(volume, enc), run, enc) && !NoDuplicates(After(Init(volume, enc), run, enc))
  {
    var c0, h := Init(volume, enc), enc.toHost(g);
    var c1 := Do(c0, ByName(h, 1), enc);
    var c2 := Do(c1, ByGuest(g, 1), enc);
    run := Cons(ByName(h, 1), Cons(ByGuest(g, 1), Nil));
    assert c1.items == c0.items + [Item(FIRST_CNID, ROOT_ID, 1, h, Cut(enc.toGuest(h)))];
    assert FindGuest(c1, g, 1, 0) == 3;
    assert c2.items[2].name == c2.items[3].name && c2.items[2].parent == c2.items[3].parent;
    assert After(c0, run, enc) == After(c1, run.tail, enc) == After(c2, Nil, enc) == c2;
  }

  /** Looking up never makes two items with the same parent and host name, in any run,
      if and only if every guest name survives the conversion to the host and back. */
  lemma UniqueExactly(volume: string, enc: Encoding)
    ensures (forall run: List<Op> :: PossibleRun(Init(volume, enc), run, enc) ==>
        NoDuplicates(After(Init(volume, enc), run, enc)))
      <==> RoundTrip(enc)
  {
    if RoundTrip(enc) {
      forall run: List<Op> | PossibleRun(Init(volume, enc), run, enc)
        ensures NoDuplicates(After(Init(volume, enc), run, enc))
      {
        RunsKeepUnique(Init(volume, enc), run, enc);
      }
    } else {
      var g: string :| |g| <= 31 && Cut(enc.toGuest(enc.toHost(g))) != g;
      var run := DuplicateRun(volume, enc, g);
    }
  }

  // ---------------------------------------------------------------- the catalogue object

  class FileSystem {
    var items: seq<Item>
    var nextCnid: nat
    var fullPath: seq<string>
    const rootPath: string
    const enc: Encoding

    constructor (volume: string, rootPath: string, enc: Encoding)
      ensures View() == Init(volume, enc) && WellFormed(View())
    {
      this.rootPath, this.enc, fullPath := rootPath, enc, [];
      items := [Item(ROOT_PARENT_ID, 0, 0, "", ""),
                Item(ROOT_ID, ROOT_PARENT_ID, 0, volume, Cut(enc.toGuest(volume)))];
      nextCnid := FIRST_CNID;
    }

    ghost function View(): Catalogue
      reads this
    {
      Catalogue(items, nextCnid)
    }

    /** `find_fsitem_by_id`; |items| for none. */
    method FindFsitemById(cnid: nat) returns (i: nat)
      ensures i == FindId(View(), cnid, 0)
    {
      i := 0;
      while i < |items| && items[i].id != cnid
        invariant i <= |items| && FindId(View(), cnid, 0) == FindId(View(), cnid, i)
      {
        i := i + 1;
      }
    }

    method CreateFsitem(name: string, guest: string, parent: nat) returns (i: nat)
      requires parent < |items|
      modifies this`items, this`nextCnid
      ensures View() == Created(old(View()), name, guest, parent) && i == |old(items)|
    {
      i := |items|;
      items := items + [Item(nextCnid, items[parent].id, parent, name, Cut(guest))];
      nextCnid := nextCnid + 1;
    }

    method FindFsitem(name: string, parent: nat) returns (i: nat)
      requires parent < |items|
      modifies this`items, this`nextCnid
      ensures View() == FoundName(old(View()), name, parent, enc) && i == FindName(old(View()), name, parent, 0)
    {
      i := 0;
      while i < |items|
        invariant i <= |items| && View() == old(View())
        invariant FindName(View(), name, parent, 0) == FindName(View(), name, parent, i)
      {
        if i > 0 && items[i].parent == parent && items[i].name == name {
          return i;
        }
        i := i + 1;
      }
      i := CreateFsitem(name, enc.toGuest(name), parent);
    }

    method FindFsitemGuest(guest: string, parent: nat) returns (i: nat)
      requires parent < |items|
      modifies this`items, this`nextCnid
      ensures View() == FoundGuest(old(View()), guest, parent, enc) && i == FindGuest(old(View()), guest, parent, 0)
    {
      i := 0;
      while i < |items|
        invariant i <= |items| && View() == old(View())
        invariant FindGuest(View(), guest, parent, 0) == FindGuest(View(), guest, parent, i)
      {
        if i > 0 && items[i].parent == parent && items[i].guestName == guest {
          return i;
        }
        i := i + 1;
      }
      i := CreateFsitem(enc.toHost(guest), guest, parent);
    }

    /** `get_path_for_fsitem` */
    method GetPathForFsitem(i: nat)
      requires WellFormed(View()) && i < |items|
      modifies this`fullPath
      ensures fullPath == Path(View(), rootPath, i)
      decreases i
    {
      if items[i].id == ROOT_PARENT_ID {
        fullPath := [];
      } else if items[i].id == ROOT_ID {
        fullPath := [rootPath];
      } else {
        GetPathForFsitem(items[i].parent);
        fullPath := fullPath + [items[i].name];
      }
    }

    /** `swap_parent_ids` */
    method SwapParentIds(a: nat, b: nat)
      modifies this`items
      ensures |items| == |old(items)|
      ensures forall k :: 0 <= k < |items| ==>
        items[k] == old(items)[k].(parentId := Swapped(old(items)[k].parentId, a, b))
    {
      var k := 0;
      while k < |items|
        invariant k <= |items| == |old(items)|
        invariant forall l :: 0 <= l < k ==>
          items[l] == old(items)[l].(parentId := Swapped(old(items)[l].parentId, a, b))
        invariant forall l :: k <= l < |items| ==> items[l] == old(items)[l]
      {
        if items[k].parentId == a {
          items := items[k := items[k].(parentId := b)];
        } else if items[k].parentId == b {
          items := items[k := items[k].(parentId := a)];
        }
        k := k + 1;
      }
    }

    /** The end of a successful rename or move: items i and j exchange their ids. */
    method SwapIds(i: nat, j: nat)
      requires i < |items| && j < |items|
      modifies this`items
      ensures View() == SwappedIds(old(View()), i, j)
    {
      var a, b := items[i].id, items[j].id;
      SwapParentIds(a, b);
      items := items[i := items[i].(id := b)];
      items := items[j := items[j].(id := a)];
    }

    /** `fs_rename` of item i to a new name in a directory, the host being asked to rename
        the file to the path in `fullPath`; `renamed` is its answer. If it does, the old id
        resolves to the item of the new name and to that path; otherwise the item of the
        new name may be new, and nothing else has changed. */
    method Renamed(i: nat, newName: string, dir: nat, renamed: bool) returns (j: nat)
      requires WellFormed(View()) && 2 <= i < |items| && dir < |items| && |newName| <= 31
      requires FindGuest(View(), newName, dir, 0) >= 2
      modifies this`items, this`nextCnid, this`fullPath
      ensures WellFormed(View()) && j < |items| && items[j].guestName == newName && items[j].parent == dir
      ensures fullPath == Path(old(View()), rootPath, dir) + [items[j].name]
      ensures renamed ==> FindId(View(), old(items[i].id), 0) == j && Path(View(), rootPath, j) == fullPath
      ensures var c := FoundGuest(old(View()), newName, dir, enc);
        i < |c.items| && j < |c.items| && View() == if renamed then SwappedIds(c, i, j) else c
    {
      hide WellFormed, Path, FoundGuest, SwappedIds;
      FoundGuestPath(View(), rootPath, newName, dir, enc);
      j := FindFsitemGuest(newName, dir);
      GetPathForFsitem(j);
      if renamed {
        SwapResolves(View(), rootPath, i, j);
        SwapNames(View(), i, j);
        SwapIds(i, j);
      }
    }

    /** `fs_cat_move` once the host has moved the file: the item of the old name in the
        new directory, found or made, takes over the id. */
    method Moved(i: nat, newDir: nat) returns (j: nat)
      requires WellFormed(View()) && 2 <= i < |items| && newDir < |items|
      requires FindName(View(), items[i].name, newDir, 0) >= 2
      modifies this`items, this`nextCnid
      ensures WellFormed(View()) && j < |items|
      ensures FindId(View(), old(items[i].id), 0) == j
      ensures Path(View(), rootPath, j) == Path(old(View()), rootPath, newDir) + [old(items[i].name)]
    {
      hide WellFormed, Path, FoundName, SwappedIds;
      FoundPath(View(), rootPath, items[i].name, newDir, enc);
      j := FindFsitem(items[i].name, newDir);
      SwapResolves(View(), rootPath, i, j);
      SwapIds(i, j);
    }
  }

  lemma {:induction false} CreatedKeepsPaths(c: Catalogue, root: string, name: string, guest: string, p: nat, k: nat)
    requires WellFormed(c) && p < |c.items| && k < |c.items| && WellFormed(Created(c, name, guest, p))
    ensures Path(Created(c, name, guest, p), root, k) == Path(c, root, k)
    decreases k
  {
    if k > 1 { CreatedKeepsPaths(c, root, name, guest, p, c.items[k].parent); }
  }

  /** Looking up a name below the root gives an item whose path is the directory's,
      extended by the name; other items stay. */
  lemma FoundPath(c: Catalogue, root: string, name: string, dir: nat, enc: Encoding)
    requires WellFormed(c) && dir < |c.items| && FindName(c, name, dir, 0) >= 2
    ensures var c' := FoundName(c, name, dir, enc); var j := FindName(c, name, dir, 0);
      WellFormed(c') && |c.items| <= |c'.items| && j < |c'.items| && c'.items[..|c.items|] == c.items &&
      (forall k :: 0 <= k < |c.items| ==> c'.items[k] == c.items[k]) &&
      Path(c', root, j) == Path(c, root, dir) + [name]
  {
    if FindName(c, name, dir, 0) == |c.items| {
      CreatedWellFormed(c, name, enc.toGuest(name), dir);
      CreatedKeepsPaths(c, root, name, enc.toGuest(name), dir, dir);
    }
  }

  /** The same for a guest name. */
  lemma FoundGuestPath(c: Catalogue, root: string, guest: string, dir: nat, enc: Encoding)
    requires WellFormed(c) && dir < |c.items| && |guest| <= 31 && FindGuest(c, guest, dir, 0) >= 2
    ensures var c' := FoundGuest(c, guest, dir, enc); var j := FindGuest(c, guest, dir, 0);
      WellFormed(c') && |c.items| <= |c'.items| && 2 <= j < |c'.items| &&
      (forall k :: 0 <= k < |c.items| ==> c'.items[k] == c.items[k]) &&
      c'.items[j].guestName == guest && c'.items[j].parent == dir &&
      Path(c', root, j) == Path(c, root, dir) + [c'.items[j].name]
  {
    if FindGuest(c, guest, dir, 0) == |c.items| {
      CreatedWellFormed(c, enc.toHost(guest), guest, dir);
      CreatedKeepsPaths(c, root, enc.toHost(guest), guest, dir, dir);
    }
  }

  /** The swap touches ids only. */
  lemma SwapNames(c: Catalogue, i: nat, j: nat)
    requires i < |c.items| && j < |c.items|
    ensures forall k :: 0 <= k < |c.items| ==>
      SwappedIds(c, i, j).items[k] ==
        c.items[k].(id := SwappedIds(c, i, j).items[k].id, parentId := SwappedIds(c, i, j).items[k].parentId)
  {
  }
}
