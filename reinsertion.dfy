/** Putting one received payload back into the parsed message
    (`insertByteBuffer`). The walk visits the children of every object and
    array; a string child that contains '@' is read as an int from its second
    character on, and if that int is the tag the child is overwritten with
    the payload and the walk of that one container ends. Enclosing
    containers go on with their remaining children, so a tag that occurs in
    several containers is replaced in each of them. A tag that occurs
    nowhere leaves the tree as it was. */
module Reinsertion {
  import opened Json
  import JavaInt

  /** What the walk does with one child of a container. */
  datatype Visit = Matched | Kept(child: J) | Failed(fault: Fault)

  predicate HasAt(o: J) { o.Str? && '@' in o.s }

  /** `Integer.parseInt(s.substring(1))` of a string child holding '@'. */
  function TagText(o: J): Option<Int32>
    requires HasAt(o)
  {
    JavaInt.ParseInt(o.s[1..])
  }

  function VisitChild(o: J, hash: Int32, value: Bytes): Visit
    decreases o, 1
  {
    if HasAt(o) then
      match TagText(o)
      case None => Failed(NumberFormat)
      case Some(i) => if i == hash then Matched else Kept(o)
    else if o.IsContainer() then
      match Insert(o, hash, value)
      case Err(e) => Failed(e)
      case Ok(o') => Kept(o')
    else Kept(o)
  }

  function VisitMember(m: (string, J), hash: Int32, value: Bytes): Visit
    decreases m, 0
  {
    VisitChild(m.1, hash, value)
  }

  /** The tree after `insertByteBuffer(json, hash, value)`, or the exception it throws. */
  function Insert(json: J, hash: Int32, value: Bytes): Result<J>
    decreases json, 0
  {
    match json
    case Obj(members) =>
      (match InsertMembers(members, hash, value)
       case Ok(ms) => Ok(Obj(ms))
       case Err(e) => Err(e))
    case Arr(items) =>
      (match InsertItems(items, hash, value)
       case Ok(xs) => Ok(Arr(xs))
       case Err(e) => Err(e))
    case _ => Ok(json)
  }

  function InsertItems(items: seq<J>, hash: Int32, value: Bytes): Result<seq<J>>
    decreases items, 0
  {
    if items == [] then Ok([])
    else
      match VisitChild(items[0], hash, value)
      case Matched => Ok([Blob(value)] + items[1..])
      case Failed(e) => Err(e)
      case Kept(o) => Prefixed([o], InsertItems(items[1..], hash, value))
  }

  function InsertMembers(members: seq<(string, J)>, hash: Int32, value: Bytes): Result<seq<(string, J)>>
    decreases members, 0
  {
    if members == [] then Ok([])
    else
      match VisitMember(members[0], hash, value)
      case Matched => Ok([(members[0].0, Blob(value))] + members[1..])
      case Failed(e) => Err(e)
      case Kept(o) => Prefixed([(members[0].0, o)], InsertMembers(members[1..], hash, value))
  }

  /** `done` followed by the children `r` holds, or the exception `r` carries. */
  function Prefixed<T>(done: seq<T>, r: Result<seq<T>>): Result<seq<T>>
  {
    match r
    case Ok(rest) => Ok(done + rest)
    case Err(e) => Err(e)
  }

  lemma PrefixedNil<T>(r: Result<seq<T>>)
    ensures Prefixed([], r) == r
  {
    if r.Ok? {
      assert [] + r.value == r.value;
    }
  }

  lemma PrefixedTwice<T>(done: seq<T>, more: seq<T>, r: Result<seq<T>>)
    ensures Prefixed(done, Prefixed(more, r)) == Prefixed(done + more, r)
  {
    if r.Ok? {
      assert done + (more + r.value) == (done + more) + r.value;
    }
  }

  /** `insertByteBuffer` as the source runs it: an object or an array has
      its children walked, anything else is left alone. The tree is a value
      here, so the overwritten container is returned. */
  method InsertByteBuffer(json: J, hash: Int32, value: Bytes) returns (r: Result<J>)
    ensures r == Insert(json, hash, value)
    decreases json, 1
  {
    match json {
      case Obj(members) =>
        var ms := InsertIntoObject(json, hash, value);
        r := if ms.Ok? then Ok(Obj(ms.value)) else Err(ms.fault);
      case Arr(items) =>
        var xs := InsertIntoArray(json, hash, value);
        r := if xs.Ok? then Ok(Arr(xs.value)) else Err(xs.fault);
      case _ =>
        r := Ok(json);
    }
  }

  /** The loop over the keys of an object. */
  method InsertIntoObject(json: J, hash: Int32, value: Bytes) returns (r: Result<seq<(string, J)>>)
    requires json.Obj?
    ensures r == InsertMembers(json.members, hash, value)
    decreases json, 0
  {
    var members := json.members;
    var done: seq<(string, J)> := [];
    var i := 0;
    assert members[i..] == members;
    PrefixedNil(InsertMembers(members, hash, value));
    while i < |members|
      invariant 0 <= i <= |members|
      invariant InsertMembers(members, hash, value) == Prefixed(done, InsertMembers(members[i..], hash, value))
    {
      var (key, o) := members[i];
      ghost var rest := InsertMembers(members[i + 1..], hash, value);
      assert members[i..][1..] == members[i + 1..];
      assert VisitMember(members[i], hash, value) == VisitChild(o, hash, value);
      var kept: J;
      if HasAt(o) {
        var parsed := JavaInt.ParseInt(o.s[1..]);
        if parsed.None? {
          return Err(NumberFormat);
        }
        if parsed.value == hash {
          assert InsertMembers(members[i..], hash, value) == Ok([(key, Blob(value))] + members[i + 1..]);
          assert done + ([(key, Blob(value))] + members[i + 1..]) == done + [(key, Blob(value))] + members[i + 1..];
          return Ok(done + [(key, Blob(value))] + members[i + 1..]);
        }
        kept := o;
      } else if o.IsContainer() {
        var sub := InsertByteBuffer(o, hash, value);
        if sub.Err? {
          return Err(sub.fault);
        }
        kept := sub.value;
      } else {
        kept := o;
      }
      assert InsertMembers(members[i..], hash, value) == Prefixed([(key, kept)], rest);
      PrefixedTwice(done, [(key, kept)], rest);
      done := done + [(key, kept)];
      i := i + 1;
    }
    assert members[i..] == [] && done + [] == done;
    return Ok(done);
  }

  /** The loop over the indices of an array. */
  method InsertIntoArray(json: J, hash: Int32, value: Bytes) returns (r: Result<seq<J>>)
    requires json.Arr?
    ensures r == InsertItems(json.items, hash, value)
    decreases json, 0
  {
    var items := json.items;
    var done: seq<J> := [];
    var i := 0;
    assert items[i..] == items;
    PrefixedNil(InsertItems(items, hash, value));
    while i < |items|
      invariant 0 <= i <= |items|
      invariant InsertItems(items, hash, value) == Prefixed(done, InsertItems(items[i..], hash, value))
    {
      var o := items[i];
      ghost var rest := InsertItems(items[i + 1..], hash, value);
      assert items[i..][1..] == items[i + 1..];
      var kept: J;
      if HasAt(o) {
        var parsed := JavaInt.ParseInt(o.s[1..]);
        if parsed.None? {
          return Err(NumberFormat);
        }
        if parsed.value == hash {
          assert InsertItems(items[i..], hash, value) == Ok([Blob(value)] + items[i + 1..]);
          assert done + ([Blob(value)] + items[i + 1..]) == done + [Blob(value)] + items[i + 1..];
          return Ok(done + [Blob(value)] + items[i + 1..]);
        }
        kept := o;
      } else if o.IsContainer() {
        var sub := InsertByteBuffer(o, hash, value);
        if sub.Err? {
          return Err(sub.fault);
        }
        kept := sub.value;
      } else {
        kept := o;
      }
      assert InsertItems(items[i..], hash, value) == Prefixed([kept], rest);
      PrefixedTwice(done, [kept], rest);
      done := done + [kept];
      i := i + 1;
    }
    assert items[i..] == [] && done + [] == done;
    return Ok(done);
  }

  /** What `Integer.parseInt` makes of every string child holding '@', in the
      order the walk meets them. */
  function Parses(j: J): seq<Option<Int32>>
    decreases j, 0
  {
    match j
    case Arr(items) => ParsesItems(items)
    case Obj(members) => ParsesMembers(members)
    case _ => []
  }

  function ChildParses(o: J): seq<Option<Int32>>
    decreases o, 1
  {
    if HasAt(o) then [TagText(o)] else if o.IsContainer() then Parses(o) else []
  }

  function ParsesItems(items: seq<J>): seq<Option<Int32>>
    decreases items, 0
  {
    if items == [] then [] else ChildParses(items[0]) + ParsesItems(items[1..])
  }

  function ParsesMembers(members: seq<(string, J)>): seq<Option<Int32>>
    decreases members, 0
  {
    if members == [] then [] else MemberParses(members[0]) + ParsesMembers(members[1..])
  }

  function MemberParses(m: (string, J)): seq<Option<Int32>>
    decreases m, 0
  {
    ChildParses(m.1)
  }

  /** A tag that no string child names is silently ignored: the tree comes
      back unchanged, unless some string child holding '@' is not a number,
      and then the walk throws NumberFormatException. */
  lemma {:induction false} InsertUnmatched(j: J, hash: Int32, value: Bytes)
    requires Some(hash) !in Parses(j)
    ensures Insert(j, hash, value) == if None in Parses(j) then Err(NumberFormat) else Ok(j)
    decreases j, 0
  {
    match j
    case Arr(items) => InsertUnmatchedItems(items, hash, value);
    case Obj(members) => InsertUnmatchedMembers(members, hash, value);
    case _ =>
  }

  lemma {:induction false} VisitUnmatched(o: J, hash: Int32, value: Bytes)
    requires Some(hash) !in ChildParses(o)
    ensures VisitChild(o, hash, value) == if None in ChildParses(o) then Failed(NumberFormat) else Kept(o)
    decreases o, 1
  {
    if !HasAt(o) && o.IsContainer() {
      InsertUnmatched(o, hash, value);
    }
  }

  lemma {:induction false} InsertUnmatchedItems(items: seq<J>, hash: Int32, value: Bytes)
    requires Some(hash) !in ParsesItems(items)
    ensures InsertItems(items, hash, value) == if None in ParsesItems(items) then Err(NumberFormat) else Ok(items)
    decreases items, 0
  {
    if items != [] {
      VisitUnmatched(items[0], hash, value);
      InsertUnmatchedItems(items[1..], hash, value);
      assert items == [items[0]] + items[1..];
    }
  }

  lemma {:induction false} VisitMemberUnmatched(m: (string, J), hash: Int32, value: Bytes)
    requires Some(hash) !in MemberParses(m)
    ensures VisitMember(m, hash, value) == if None in MemberParses(m) then Failed(NumberFormat) else Kept(m.1)
    decreases m, 0
  {
    VisitUnmatched(m.1, hash, value);
  }

  lemma {:induction false} InsertUnmatchedMembers(members: seq<(string, J)>, hash: Int32, value: Bytes)
    requires Some(hash) !in ParsesMembers(members)
    ensures InsertMembers(members, hash, value) == if None in ParsesMembers(members) then Err(NumberFormat) else Ok(members)
    decreases members, 0
  {
    if members != [] {
      VisitMemberUnmatched(members[0], hash, value);
      InsertUnmatchedMembers(members[1..], hash, value);
      assert members == [(members[0].0, members[0].1)] + members[1..];
    }
  }

  /** The '@' test is `contains`, not `startsWith`: an ordinary string such
      as "a@b" is parsed from its second character and the walk throws. */
  lemma LooseAtTest(hash: Int32, value: Bytes)
    ensures Insert(Obj([("note", Str("a@b"))]), hash, value) == Err(NumberFormat)
  {
  }

  /** A match ends the walk of its own container only: the second "@7" in
      the inner array stays, the one in the outer array is replaced too. */
  lemma MatchEndsOnlyItsContainer(value: Bytes)
    ensures Insert(Arr([Arr([Str("@7"), Str("@7")]), Str("@7")]), 7, value)
         == Ok(Arr([Arr([Blob(value), Str("@7")]), Blob(value)]))
  {
    var at7, inner := Str("@7"), Arr([Str("@7"), Str("@7")]);
    assert at7.s[1..] == "7";
    assert JavaInt.DigitsValue("7") == 7 by {
      assert "7"[..0] == "";
    }
    assert VisitChild(at7, 7, value) == Matched;
    assert [at7, at7][1..] == [at7] && [Blob(value)] + [at7] == [Blob(value), at7];
    assert InsertItems([at7, at7], 7, value) == Ok([Blob(value), at7]);
    assert VisitChild(inner, 7, value) == Kept(Arr([Blob(value), at7]));
    assert [inner, at7][1..] == [at7] && [at7][1..] == [] && [Blob(value)] + [] == [Blob(value)];
    assert InsertItems([at7], 7, value) == Ok([Blob(value)]);
    assert [Arr([Blob(value), at7])] + [Blob(value)] == [Arr([Blob(value), at7]), Blob(value)];
    assert InsertItems([inner, at7], 7, value) == Ok([Arr([Blob(value), at7]), Blob(value)]);
  }
}
