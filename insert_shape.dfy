/** What a successful `insertByteBuffer` may change: only string children
    that name the tag, each either left as it was or replaced by the
    payload. Numbers, booleans, nulls, blobs, strings without '@' and
    strings naming another tag come back as they were, and every container
    keeps its keys, their order and its length. */
module InsertShape {
  import opened Json
  import opened Reinsertion

  /** `b` is `a` with zero or more string children naming tag `h` replaced
      by `Blob(v)`. */
  predicate Replaced(a: J, b: J, h: Int32, v: Bytes)
    decreases a, 1
  {
    if HasAt(a) && TagText(a) == Some(h) then b == a || b == Blob(v)
    else
      match a
      case Arr(xs) => b.Arr? && ItemsReplaced(xs, b.items, h, v)
      case Obj(ms) => b.Obj? && MembersReplaced(ms, b.members, h, v)
      case _ => b == a
  }

  predicate ItemsReplaced(xs: seq<J>, ys: seq<J>, h: Int32, v: Bytes)
    decreases xs, 0
  {
    |ys| == |xs| && (xs == [] || (Replaced(xs[0], ys[0], h, v) && ItemsReplaced(xs[1..], ys[1..], h, v)))
  }

  predicate MembersReplaced(ms: seq<(string, J)>, ns: seq<(string, J)>, h: Int32, v: Bytes)
    decreases ms, 0
  {
    |ns| == |ms| && (ms == [] || (MemberReplaced(ms[0], ns[0], h, v) && MembersReplaced(ms[1..], ns[1..], h, v)))
  }

  predicate MemberReplaced(m: (string, J), n: (string, J), h: Int32, v: Bytes)
    decreases m, 0
  {
    n.0 == m.0 && Replaced(m.1, n.1, h, v)
  }

  lemma {:induction false} ReplacedSelf(a: J, h: Int32, v: Bytes)
    ensures Replaced(a, a, h, v)
    decreases a, 1
  {
    if !(HasAt(a) && TagText(a) == Some(h)) {
      match a
      case Arr(xs) => ItemsReplacedSelf(xs, h, v);
      case Obj(ms) => MembersReplacedSelf(ms, h, v);
      case _ =>
    }
  }

  lemma {:induction false} ItemsReplacedSelf(xs: seq<J>, h: Int32, v: Bytes)
    ensures ItemsReplaced(xs, xs, h, v)
    decreases xs, 0
  {
    if xs != [] {
      ReplacedSelf(xs[0], h, v);
      ItemsReplacedSelf(xs[1..], h, v);
    }
  }

  lemma {:induction false} MembersReplacedSelf(ms: seq<(string, J)>, h: Int32, v: Bytes)
    ensures MembersReplaced(ms, ms, h, v)
    decreases ms, 0
  {
    if ms != [] {
      MemberReplacedSelf(ms[0], h, v);
      MembersReplacedSelf(ms[1..], h, v);
    }
  }

  lemma {:induction false} MemberReplacedSelf(m: (string, J), h: Int32, v: Bytes)
    ensures MemberReplaced(m, m, h, v)
    decreases m, 0
  {
    ReplacedSelf(m.1, h, v);
  }

  /** A successful insertion changes nothing but string children naming
      the tag, and each of those only into the payload. */
  lemma {:induction false} InsertOnlyReplaces(j: J, h: Int32, v: Bytes)
    requires Insert(j, h, v).Ok?
    ensures Replaced(j, Insert(j, h, v).value, h, v)
    decreases j, 0
  {
    match j
    case Arr(xs) => InsertItemsOnlyReplaces(xs, h, v);
    case Obj(ms) => InsertMembersOnlyReplaces(ms, h, v);
    case _ =>
  }

  lemma {:induction false} VisitOnlyReplaces(o: J, h: Int32, v: Bytes)
    requires !VisitChild(o, h, v).Failed?
    ensures VisitChild(o, h, v).Matched? ==> HasAt(o) && TagText(o) == Some(h)
    ensures VisitChild(o, h, v).Kept? ==> Replaced(o, VisitChild(o, h, v).child, h, v)
    decreases o, 1
  {
    if HasAt(o) {
      ReplacedSelf(o, h, v);
    } else if o.IsContainer() {
      InsertOnlyReplaces(o, h, v);
    } else {
      ReplacedSelf(o, h, v);
    }
  }

  lemma {:induction false} InsertItemsOnlyReplaces(xs: seq<J>, h: Int32, v: Bytes)
    requires InsertItems(xs, h, v).Ok?
    ensures ItemsReplaced(xs, InsertItems(xs, h, v).value, h, v)
    decreases xs, 0
  {
    if xs != [] {
      var ys := InsertItems(xs, h, v).value;
      VisitOnlyReplaces(xs[0], h, v);
      match VisitChild(xs[0], h, v)
      case Matched =>
        assert ys[1..] == xs[1..];
        ItemsReplacedSelf(xs[1..], h, v);
      case Kept(o) =>
        InsertItemsOnlyReplaces(xs[1..], h, v);
        assert ys[1..] == InsertItems(xs[1..], h, v).value;
    }
  }

  lemma {:induction false} VisitMemberOnlyReplaces(m: (string, J), h: Int32, v: Bytes)
    requires !VisitMember(m, h, v).Failed?
    ensures VisitMember(m, h, v).Matched? ==> MemberReplaced(m, (m.0, Blob(v)), h, v)
    ensures VisitMember(m, h, v).Kept? ==> MemberReplaced(m, (m.0, VisitMember(m, h, v).child), h, v)
    decreases m, 0
  {
    VisitOnlyReplaces(m.1, h, v);
  }

  lemma {:induction false} InsertMembersOnlyReplaces(ms: seq<(string, J)>, h: Int32, v: Bytes)
    requires InsertMembers(ms, h, v).Ok?
    ensures MembersReplaced(ms, InsertMembers(ms, h, v).value, h, v)
    decreases ms, 0
  {
    if ms != [] {
      var ns := InsertMembers(ms, h, v).value;
      VisitMemberOnlyReplaces(ms[0], h, v);
      match VisitMember(ms[0], h, v)
      case Matched =>
        assert ns[1..] == ms[1..];
        MembersReplacedSelf(ms[1..], h, v);
      case Kept(o) =>
        InsertMembersOnlyReplaces(ms[1..], h, v);
        assert ns[1..] == InsertMembers(ms[1..], h, v).value;
    }
  }
}
