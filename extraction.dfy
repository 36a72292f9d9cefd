/** Pulling the `byte[]` leaves out of an outgoing message (`recurseBinaryData`)
    and the structure-only tree that the text frame describes, in which each
    of them is replaced by a placeholder string `"@" + tag`. */
module Extraction {
  import opened Json
  import JavaInt

  /** The blobs of a tree in depth-first order: object members in key order,
      array elements by index. A blob contributes itself, a container what
      its children contribute, every other leaf nothing. */
  function Collected(j: J): seq<Bytes>
  {
    match j
    case Blob(b) => [b]
    case Arr(items) => CollectedItems(items)
    case Obj(members) => CollectedMembers(members)
    case _ => []
  }

  function CollectedItems(items: seq<J>): seq<Bytes>
  {
    if items == [] then [] else Collected(items[0]) + CollectedItems(items[1..])
  }

  function CollectedMembers(members: seq<(string, J)>): seq<Bytes>
  {
    if members == [] then [] else CollectedMember(members[0]) + CollectedMembers(members[1..])
  }

  function CollectedMember(m: (string, J)): seq<Bytes>
  {
    Collected(m.1)
  }

  /** `recurseBinaryData`: append the blobs found under `json` to
      `binaryData`. Only an object or an array is searched; a blob child is
      appended, a container child is searched in turn, and any other child
      is skipped. */
  method RecurseBinaryData(binaryData: seq<Bytes>, json: J) returns (out: seq<Bytes>)
    ensures out == binaryData + (if json.IsContainer() then Collected(json) else [])
    decreases json, 1
  {
    if json.Obj? {
      out := CollectFromObject(binaryData, json);
    } else if json.Arr? {
      out := CollectFromArray(binaryData, json);
    } else {
      out := binaryData;
    }
  }

  /** The object branch of `recurseBinaryData`: members in key order. */
  method CollectFromObject(binaryData: seq<Bytes>, json: J) returns (out: seq<Bytes>)
    requires json.Obj?
    ensures out == binaryData + CollectedMembers(json.members)
    decreases json, 0
  {
    var members := json.members;
    out := binaryData;
    var i := 0;
    while i < |members|
      invariant 0 <= i <= |members|
      invariant out + CollectedMembers(members[i..]) == binaryData + CollectedMembers(members)
    {
      assert members[i..][1..] == members[i + 1..];
      var (key, value) := members[i];
      assert CollectedMembers(members[i..]) == Collected(value) + CollectedMembers(members[i + 1..]);
      if value.Blob? {
        out := out + [value.bytes];
      } else if value.IsContainer() {
        out := RecurseBinaryData(out, value);
      }
      i := i + 1;
    }
    assert members[i..] == [];
  }

  /** The array branch of `recurseBinaryData`: elements by index. */
  method CollectFromArray(binaryData: seq<Bytes>, json: J) returns (out: seq<Bytes>)
    requires json.Arr?
    ensures out == binaryData + CollectedItems(json.items)
    decreases json, 0
  {
    var items := json.items;
    out := binaryData;
    var i := 0;
    while i < |items|
      invariant 0 <= i <= |items|
      invariant out + CollectedItems(items[i..]) == binaryData + CollectedItems(items)
    {
      assert items[i..][1..] == items[i + 1..];
      var value := items[i];
      assert CollectedItems(items[i..]) == Collected(value) + CollectedItems(items[i + 1..]);
      if value.Blob? {
        out := out + [value.bytes];
      } else if value.IsContainer() {
        out := RecurseBinaryData(out, value);
      }
      i := i + 1;
    }
    assert items[i..] == [];
  }

  /** The placeholder string written for a blob with the given tag. */
  function Placeholder(tag: Int32): string
  {
    "@" + JavaInt.Decimal(tag)
  }

  /** The tree with every blob whose depth-first index is `n` or more
      replaced by its placeholder; `off` is the index of the first blob of
      `j` within the whole message and `tagOf` gives each index its tag.
      `Hide(j, tagOf, 0, 0)` is the structure-only message; blobs below `n`
      are the ones a receiver has already put back. */
  function Hide(j: J, tagOf: nat -> Int32, n: nat, off: nat): J
  {
    match j
    case Blob(_) => if off >= n then Str(Placeholder(tagOf(off))) else j
    case Arr(items) => Arr(HideItems(items, tagOf, n, off))
    case Obj(members) => Obj(HideMembers(members, tagOf, n, off))
    case _ => j
  }

  function HideItems(items: seq<J>, tagOf: nat -> Int32, n: nat, off: nat): (r: seq<J>)
    ensures |r| == |items|
  {
    if items == [] then []
    else [Hide(items[0], tagOf, n, off)] + HideItems(items[1..], tagOf, n, off + |Collected(items[0])|)
  }

  function HideMembers(members: seq<(string, J)>, tagOf: nat -> Int32, n: nat, off: nat): (r: seq<(string, J)>)
    ensures |r| == |members|
  {
    if members == [] then []
    else [HideMember(members[0], tagOf, n, off)]
         + HideMembers(members[1..], tagOf, n, off + |CollectedMember(members[0])|)
  }

  function HideMember(m: (string, J), tagOf: nat -> Int32, n: nat, off: nat): (string, J)
  {
    (m.0, Hide(m.1, tagOf, n, off))
  }

  /** Hiding from index `n` or from `n + 1` differs only at blob `n`, so it
      is the same for a subtree whose blobs do not include index `n`. */
  lemma {:induction false} HideOutside(j: J, tagOf: nat -> Int32, n: nat, off: nat)
    requires n < off || off + |Collected(j)| <= n
    ensures Hide(j, tagOf, n, off) == Hide(j, tagOf, n + 1, off)
    decreases j
  {
    match j
    case Arr(items) => HideOutsideItems(items, tagOf, n, off);
    case Obj(members) => HideOutsideMembers(members, tagOf, n, off);
    case _ =>
  }

  lemma {:induction false} HideOutsideItems(items: seq<J>, tagOf: nat -> Int32, n: nat, off: nat)
    requires n < off || off + |CollectedItems(items)| <= n
    ensures HideItems(items, tagOf, n, off) == HideItems(items, tagOf, n + 1, off)
    decreases items
  {
    if items != [] {
      var mid := off + |Collected(items[0])|;
      assert CollectedItems(items) == Collected(items[0]) + CollectedItems(items[1..]);
      HideOutside(items[0], tagOf, n, off);
      HideOutsideItems(items[1..], tagOf, n, mid);
      assert HideItems(items, tagOf, n, off)
          == [Hide(items[0], tagOf, n, off)] + HideItems(items[1..], tagOf, n, mid);
      assert HideItems(items, tagOf, n + 1, off)
          == [Hide(items[0], tagOf, n + 1, off)] + HideItems(items[1..], tagOf, n + 1, mid);
    }
  }

  lemma {:induction false} HideOutsideMembers(members: seq<(string, J)>, tagOf: nat -> Int32, n: nat, off: nat)
    requires n < off || off + |CollectedMembers(members)| <= n
    ensures HideMembers(members, tagOf, n, off) == HideMembers(members, tagOf, n + 1, off)
    decreases members
  {
    if members != [] {
      var mid := off + |CollectedMember(members[0])|;
      assert CollectedMembers(members) == CollectedMember(members[0]) + CollectedMembers(members[1..]);
      HideOutsideMember(members[0], tagOf, n, off);
      HideOutsideMembers(members[1..], tagOf, n, mid);
      assert HideMembers(members, tagOf, n, off)
          == [HideMember(members[0], tagOf, n, off)] + HideMembers(members[1..], tagOf, n, mid);
      assert HideMembers(members, tagOf, n + 1, off)
          == [HideMember(members[0], tagOf, n + 1, off)] + HideMembers(members[1..], tagOf, n + 1, mid);
    }
  }

  /** Once every blob of the subtree has been put back, it is the original. */
  lemma {:induction false} HideDone(j: J, tagOf: nat -> Int32, n: nat, off: nat)
    requires off + |Collected(j)| <= n
    ensures Hide(j, tagOf, n, off) == j
    decreases j
  {
    match j
    case Arr(items) => HideDoneItems(items, tagOf, n, off);
    case Obj(members) => HideDoneMembers(members, tagOf, n, off);
    case _ =>
  }

  lemma {:induction false} HideDoneItems(items: seq<J>, tagOf: nat -> Int32, n: nat, off: nat)
    requires off + |CollectedItems(items)| <= n
    ensures HideItems(items, tagOf, n, off) == items
    decreases items
  {
    if items != [] {
      HideDone(items[0], tagOf, n, off);
      HideDoneItems(items[1..], tagOf, n, off + |Collected(items[0])|);
      assert items == [items[0]] + items[1..];
    }
  }

  lemma {:induction false} HideDoneMembers(members: seq<(string, J)>, tagOf: nat -> Int32, n: nat, off: nat)
    requires off + |CollectedMembers(members)| <= n
    ensures HideMembers(members, tagOf, n, off) == members
    decreases members
  {
    if members != [] {
      HideDoneMember(members[0], tagOf, n, off);
      HideDoneMembers(members[1..], tagOf, n, off + |CollectedMember(members[0])|);
      assert members == [members[0]] + members[1..];
    }
  }

  /** The structure-only message holds no blob: the text frame carries none. */
  lemma {:induction false} StructureOnlyHasNoBlobs(j: J, tagOf: nat -> Int32, n: nat, off: nat)
    requires n <= off
    ensures Collected(Hide(j, tagOf, n, off)) == []
    decreases j
  {
    match j
    case Arr(items) => StructureOnlyItems(items, tagOf, n, off);
    case Obj(members) => StructureOnlyMembers(members, tagOf, n, off);
    case _ =>
  }

  lemma {:induction false} StructureOnlyItems(items: seq<J>, tagOf: nat -> Int32, n: nat, off: nat)
    requires n <= off
    ensures CollectedItems(HideItems(items, tagOf, n, off)) == []
    decreases items
  {
    if items != [] {
      var hidden := HideItems(items, tagOf, n, off);
      StructureOnlyHasNoBlobs(items[0], tagOf, n, off);
      StructureOnlyItems(items[1..], tagOf, n, off + |Collected(items[0])|);
      assert hidden[0] == Hide(items[0], tagOf, n, off);
      assert hidden[1..] == HideItems(items[1..], tagOf, n, off + |Collected(items[0])|);
    }
  }

  lemma {:induction false} StructureOnlyMembers(members: seq<(string, J)>, tagOf: nat -> Int32, n: nat, off: nat)
    requires n <= off
    ensures CollectedMembers(HideMembers(members, tagOf, n, off)) == []
    decreases members
  {
    if members != [] {
      var hidden := HideMembers(members, tagOf, n, off);
      StructureOnlyMember(members[0], tagOf, n, off);
      StructureOnlyMembers(members[1..], tagOf, n, off + |CollectedMember(members[0])|);
      assert hidden[0] == HideMember(members[0], tagOf, n, off);
      assert hidden[1..] == HideMembers(members[1..], tagOf, n, off + |CollectedMember(members[0])|);
    }
  }

  lemma {:induction false} HideOutsideMember(m: (string, J), tagOf: nat -> Int32, n: nat, off: nat)
    requires n < off || off + |CollectedMember(m)| <= n
    ensures HideMember(m, tagOf, n, off) == HideMember(m, tagOf, n + 1, off)
    decreases m
  {
    HideOutside(m.1, tagOf, n, off);
  }

  lemma {:induction false} HideDoneMember(m: (string, J), tagOf: nat -> Int32, n: nat, off: nat)
    requires off + |CollectedMember(m)| <= n
    ensures HideMember(m, tagOf, n, off) == m
    decreases m
  {
    HideDone(m.1, tagOf, n, off);
  }

  lemma {:induction false} StructureOnlyMember(m: (string, J), tagOf: nat -> Int32, n: nat, off: nat)
    requires n <= off
    ensures CollectedMember(HideMember(m, tagOf, n, off)) == []
    decreases m
  {
    StructureOnlyHasNoBlobs(m.1, tagOf, n, off);
  }
}
