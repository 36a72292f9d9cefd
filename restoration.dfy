/** Why the receiver puts every blob back where it was. A message whose
    ordinary strings hold no '@' is sent as `Hide(j, tagOf, 0, 0)`: blob `g`
    (in depth-first order) is replaced by the placeholder of `tagOf(g)`.
    With pairwise distinct tags, inserting payload `n` into the tree whose
    first `n` blobs are already back restores blob `n` and nothing else. */
module Restoration {
  import opened Json
  import JavaInt
  import opened Extraction
  import opened Reinsertion

  /** A placeholder holds '@' and parses back to its tag. */
  lemma PlaceholderParses(t: Int32)
    ensures HasAt(Str(Placeholder(t))) && TagText(Str(Placeholder(t))) == Some(t)
  {
    assert Placeholder(t)[0] == '@';
    assert Placeholder(t)[1..] == JavaInt.Decimal(t);
    JavaInt.ParseDecimal(t);
  }

  /** In a partly restored tree every '@' string is a placeholder that
      parses, and only the tags of still hidden blobs occur. */
  lemma {:induction false} HiddenUnmatched(j: J, tagOf: nat -> Int32, n: nat, off: nat, h: Int32)
    requires Parses(j) == []
    requires forall g :: off <= g < off + |Collected(j)| && n <= g ==> tagOf(g) != h
    ensures None !in Parses(Hide(j, tagOf, n, off)) && Some(h) !in Parses(Hide(j, tagOf, n, off))
    decreases j, 0
  {
    match j
    case Arr(items) => HiddenUnmatchedItems(items, tagOf, n, off, h);
    case Obj(members) => HiddenUnmatchedMembers(members, tagOf, n, off, h);
    case _ =>
  }

  lemma {:induction false} ChildHiddenUnmatched(o: J, tagOf: nat -> Int32, n: nat, off: nat, h: Int32)
    requires ChildParses(o) == []
    requires forall g :: off <= g < off + |Collected(o)| && n <= g ==> tagOf(g) != h
    ensures None !in ChildParses(Hide(o, tagOf, n, off)) && Some(h) !in ChildParses(Hide(o, tagOf, n, off))
    decreases o, 1
  {
    match o
    case Blob(_) =>
      if off >= n {
        PlaceholderParses(tagOf(off));
      }
    case Arr(_) => HiddenUnmatched(o, tagOf, n, off, h);
    case Obj(_) => HiddenUnmatched(o, tagOf, n, off, h);
    case _ =>
  }

  lemma {:induction false} MemberHiddenUnmatched(m: (string, J), tagOf: nat -> Int32, n: nat, off: nat, h: Int32)
    requires MemberParses(m) == []
    requires forall g :: off <= g < off + |CollectedMember(m)| && n <= g ==> tagOf(g) != h
    ensures None !in MemberParses(HideMember(m, tagOf, n, off))
    ensures Some(h) !in MemberParses(HideMember(m, tagOf, n, off))
    decreases m, 0
  {
    ChildHiddenUnmatched(m.1, tagOf, n, off, h);
  }

  lemma {:induction false} HiddenUnmatchedItems(items: seq<J>, tagOf: nat -> Int32, n: nat, off: nat, h: Int32)
    requires ParsesItems(items) == []
    requires forall g :: off <= g < off + |CollectedItems(items)| && n <= g ==> tagOf(g) != h
    ensures None !in ParsesItems(HideItems(items, tagOf, n, off))
    ensures Some(h) !in ParsesItems(HideItems(items, tagOf, n, off))
    decreases items, 0
  {
    if items != [] {
      var mid := off + |Collected(items[0])|;
      var hidden := HideItems(items, tagOf, n, off);
      assert hidden[0] == Hide(items[0], tagOf, n, off);
      assert hidden[1..] == HideItems(items[1..], tagOf, n, mid);
      ChildHiddenUnmatched(items[0], tagOf, n, off, h);
      HiddenUnmatchedItems(items[1..], tagOf, n, mid, h);
    }
  }

  lemma {:induction false} HiddenUnmatchedMembers(members: seq<(string, J)>, tagOf: nat -> Int32, n: nat, off: nat, h: Int32)
    requires ParsesMembers(members) == []
    requires forall g :: off <= g < off + |CollectedMembers(members)| && n <= g ==> tagOf(g) != h
    ensures None !in ParsesMembers(HideMembers(members, tagOf, n, off))
    ensures Some(h) !in ParsesMembers(HideMembers(members, tagOf, n, off))
    decreases members, 0
  {
    if members != [] {
      var mid := off + |CollectedMember(members[0])|;
      var hidden := HideMembers(members, tagOf, n, off);
      assert hidden[0] == HideMember(members[0], tagOf, n, off);
      assert hidden[1..] == HideMembers(members[1..], tagOf, n, mid);
      MemberHiddenUnmatched(members[0], tagOf, n, off, h);
      HiddenUnmatchedMembers(members[1..], tagOf, n, mid, h);
    }
  }

  /** Inserting payload `n` under its tag restores blob `n` and changes
      nothing else. */
  lemma {:induction false} InsertRestores(j: J, tagOf: nat -> Int32, n: nat, off: nat, v: Bytes)
    requires j.IsContainer() && Parses(j) == []
    requires off <= n < off + |Collected(j)| && v == Collected(j)[n - off]
    requires forall g :: off <= g < off + |Collected(j)| && g != n ==> tagOf(g) != tagOf(n)
    ensures Insert(Hide(j, tagOf, n, off), tagOf(n), v) == Ok(Hide(j, tagOf, n + 1, off))
    decreases j, 0
  {
    match j
    case Arr(items) => InsertRestoresItems(items, tagOf, n, off, v);
    case Obj(members) => InsertRestoresMembers(members, tagOf, n, off, v);
  }

  lemma {:induction false} VisitRestores(o: J, tagOf: nat -> Int32, n: nat, off: nat, v: Bytes)
    requires ChildParses(o) == []
    requires off <= n < off + |Collected(o)| && v == Collected(o)[n - off]
    requires forall g :: off <= g < off + |Collected(o)| && g != n ==> tagOf(g) != tagOf(n)
    ensures o.Blob? ==> VisitChild(Hide(o, tagOf, n, off), tagOf(n), v) == Matched
                        && Hide(o, tagOf, n + 1, off) == Blob(v)
    ensures !o.Blob? ==> VisitChild(Hide(o, tagOf, n, off), tagOf(n), v) == Kept(Hide(o, tagOf, n + 1, off))
    decreases o, 1
  {
    if o.Blob? {
      PlaceholderParses(tagOf(n));
    } else {
      InsertRestores(o, tagOf, n, off, v);
    }
  }

  lemma {:induction false} InsertRestoresItems(items: seq<J>, tagOf: nat -> Int32, n: nat, off: nat, v: Bytes)
    requires ParsesItems(items) == []
    requires off <= n < off + |CollectedItems(items)| && v == CollectedItems(items)[n - off]
    requires forall g :: off <= g < off + |CollectedItems(items)| && g != n ==> tagOf(g) != tagOf(n)
    ensures InsertItems(HideItems(items, tagOf, n, off), tagOf(n), v) == Ok(HideItems(items, tagOf, n + 1, off))
    decreases items, 0
  {
    var x, rest := items[0], items[1..];
    var mid := off + |Collected(x)|;
    var hidden := HideItems(items, tagOf, n, off);
    var restored := HideItems(items, tagOf, n + 1, off);
    assert hidden[0] == Hide(x, tagOf, n, off) && hidden[1..] == HideItems(rest, tagOf, n, mid);
    assert restored == [Hide(x, tagOf, n + 1, off)] + HideItems(rest, tagOf, n + 1, mid);
    assert CollectedItems(items) == Collected(x) + CollectedItems(rest);
    if n < mid {
      VisitRestores(x, tagOf, n, off, v);
      HiddenUnmatchedItems(rest, tagOf, n, mid, tagOf(n));
      InsertUnmatchedItems(hidden[1..], tagOf(n), v);
      HideOutsideItems(rest, tagOf, n, mid);
    } else {
      ChildHiddenUnmatched(x, tagOf, n, off, tagOf(n));
      VisitUnmatched(hidden[0], tagOf(n), v);
      HideOutside(x, tagOf, n, off);
      InsertRestoresItems(rest, tagOf, n, mid, v);
    }
  }

  lemma {:induction false} VisitMemberRestores(m: (string, J), tagOf: nat -> Int32, n: nat, off: nat, v: Bytes)
    requires MemberParses(m) == []
    requires off <= n < off + |CollectedMember(m)| && v == CollectedMember(m)[n - off]
    requires forall g :: off <= g < off + |CollectedMember(m)| && g != n ==> tagOf(g) != tagOf(n)
    ensures m.1.Blob? ==> VisitMember(HideMember(m, tagOf, n, off), tagOf(n), v) == Matched
                          && HideMember(m, tagOf, n + 1, off) == (m.0, Blob(v))
    ensures !m.1.Blob? ==> VisitMember(HideMember(m, tagOf, n, off), tagOf(n), v)
                           == Kept(HideMember(m, tagOf, n + 1, off).1)
    decreases m, 0
  {
    VisitRestores(m.1, tagOf, n, off, v);
  }

  lemma {:induction false} VisitMemberHiddenUnmatched(m: (string, J), tagOf: nat -> Int32, n: nat, off: nat, v: Bytes)
    requires MemberParses(m) == []
    requires off + |CollectedMember(m)| <= n
    ensures VisitMember(HideMember(m, tagOf, n, off), tagOf(n), v) == Kept(HideMember(m, tagOf, n, off).1)
    ensures HideMember(m, tagOf, n, off) == HideMember(m, tagOf, n + 1, off)
    decreases m, 0
  {
    ChildHiddenUnmatched(m.1, tagOf, n, off, tagOf(n));
    VisitUnmatched(Hide(m.1, tagOf, n, off), tagOf(n), v);
    HideOutside(m.1, tagOf, n, off);
  }

  lemma {:induction false} InsertRestoresMembers(members: seq<(string, J)>, tagOf: nat -> Int32, n: nat, off: nat, v: Bytes)
    requires ParsesMembers(members) == []
    requires off <= n < off + |CollectedMembers(members)| && v == CollectedMembers(members)[n - off]
    requires forall g :: off <= g < off + |CollectedMembers(members)| && g != n ==> tagOf(g) != tagOf(n)
    ensures InsertMembers(HideMembers(members, tagOf, n, off), tagOf(n), v)
         == Ok(HideMembers(members, tagOf, n + 1, off))
    decreases members, 0
  {
    var x, rest := members[0], members[1..];
    var mid := off + |CollectedMember(x)|;
    var hidden := HideMembers(members, tagOf, n, off);
    var restored := HideMembers(members, tagOf, n + 1, off);
    assert hidden[0] == HideMember(x, tagOf, n, off) && hidden[1..] == HideMembers(rest, tagOf, n, mid);
    assert restored == [HideMember(x, tagOf, n + 1, off)] + HideMembers(rest, tagOf, n + 1, mid);
    assert CollectedMembers(members) == CollectedMember(x) + CollectedMembers(rest);
    if n < mid {
      VisitMemberRestores(x, tagOf, n, off, v);
      HiddenUnmatchedMembers(rest, tagOf, n, mid, tagOf(n));
      InsertUnmatchedMembers(hidden[1..], tagOf(n), v);
      HideOutsideMembers(rest, tagOf, n, mid);
    } else {
      VisitMemberHiddenUnmatched(x, tagOf, n, off, v);
      InsertRestoresMembers(rest, tagOf, n, mid, v);
    }
  }
}
