/** The ordered list of variables, edited by (name, GUID), and the ordered map it stands for. */
module VarList {
  import opened Bytes
  import opened Guid
  import opened Variables
  import opened StoreImage

  const TIMEBASED_AUTH_WRITE_ACCESS := 0x20

  /** An EFI_TIME in binary form; sixteen zero bytes stand for "no time". */
  type EfiTime = t: bytes | |t| == 16 witness Fill(0, 16)

  /** What lookups compare: the stored name and the GUID text in lower case. */
  datatype Key = Key(nameBlob: bytes, guidText: string)

  function KeyOf(v: Variable): Key
  {
    Key(v.nameBlob, v.guidText)
  }

  /** The position of the first variable with this key, or the length of the list. */
  function FirstIndex(vars: seq<Variable>, k: Key): (i: nat)
    ensures i <= |vars|
    ensures forall j :: 0 <= j < i ==> KeyOf(vars[j]) != k
    ensures i < |vars| ==> KeyOf(vars[i]) == k
  {
    if |vars| == 0 || KeyOf(vars[0]) == k then 0 else 1 + FirstIndex(vars[1..], k)
  }

  ghost predicate Unique(vars: seq<Variable>)
  {
    forall i, j :: 0 <= i < j < |vars| ==> KeyOf(vars[i]) != KeyOf(vars[j])
  }

  /** One call of `add_variable`; `now` is the clock, used only if a time is due and none is given. */
  datatype Edit = Edit(name: bytes, guid: string, attributes: int, timeStamp: Option<EfiTime>, now: EfiTime,
                       buffer: bytes, size: int, append: bool)
  {
    function Target(): Key {
      Key(Str2Blob(name), Lower(guid))
    }

    function Time(): EfiTime {
      match timeStamp
      case Some(t) => t
      case None => if attributes / TIMEBASED_AUTH_WRITE_ACCESS % 2 == 1 then now else Fill(0, 16)
    }
  }

  function Updated(v: Variable, e: Edit): Variable
  {
    var stamped := v.(attributes := e.attributes, timeStamp := e.Time());
    if e.append then stamped.(data := v.data + e.buffer, dataSize := v.dataSize + e.size)
    else stamped.(data := e.buffer, dataSize := e.size)
  }

  function Created(e: Edit, guid: bytes): Variable
  {
    var nameBlob := Str2Blob(e.name);
    Variable(START_ID, VAR_ADDED, 0, e.attributes, 0, e.Time(), 0, |nameBlob|, e.size, guid, Lower(e.guid),
             nameBlob, e.buffer)
  }

  /** Updates the first variable with the key or appends a new one; a bad GUID raises only then. */
  function AddTo(vars: seq<Variable>, e: Edit): Option<seq<Variable>>
  {
    var i := FirstIndex(vars, e.Target());
    if i < |vars| then Some(vars[i := Updated(vars[i], e)])
    else
      var guid :- Str2Guid(e.guid);
      Some(vars + [Created(e, guid)])
  }

  function DelFrom(vars: seq<Variable>, k: Key): seq<Variable>
  {
    var i := FirstIndex(vars, k);
    if i < |vars| then vars[..i] + vars[i + 1..] else vars
  }

  // The list keeps unique keys

  lemma {:induction false} AddKeepsUnique(vars: seq<Variable>, e: Edit)
    requires Unique(vars) && AddTo(vars, e).Some?
    ensures var r := AddTo(vars, e).value;
            && Unique(r)
            && FirstIndex(r, e.Target()) == FirstIndex(vars, e.Target()) < |r|
            && |r| == Max(|vars|, FirstIndex(vars, e.Target()) + 1)
            && (forall j :: 0 <= j < |vars| && j != FirstIndex(vars, e.Target()) ==> r[j] == vars[j])
            && (!e.append || e.Target() !in Keys(vars) ==> r[FirstIndex(vars, e.Target())].data == e.buffer)
  {
    var i, r := FirstIndex(vars, e.Target()), AddTo(vars, e).value;
    assert KeyOf(r[i]) == e.Target();
    IndexUnique(r, i);
    if i < |vars| {
      assert Keys(vars)[i] == e.Target();
    }
  }

  lemma {:induction false} DelKeepsUnique(vars: seq<Variable>, k: Key)
    requires Unique(vars)
    ensures var r := DelFrom(vars, k);
            && Unique(r)
            && FirstIndex(r, k) == |r|
            && (FirstIndex(vars, k) == |vars| ==> r == vars)
            && (FirstIndex(vars, k) < |vars| ==> |r| == |vars| - 1)
            && (forall j :: 0 <= j < FirstIndex(vars, k) ==> r[j] == vars[j])
            && (forall j :: FirstIndex(vars, k) < j < |vars| ==> r[j - 1] == vars[j])
  {
    var i, r := FirstIndex(vars, k), DelFrom(vars, k);
    if i < |vars| {
      forall j | 0 <= j < |r|
        ensures KeyOf(r[j]) != k
      {
        assert r[j] == vars[if j < i then j else j + 1];
      }
    }
  }

  lemma {:induction false} IndexUnique(vars: seq<Variable>, i: nat)
    requires Unique(vars) && i < |vars|
    ensures FirstIndex(vars, KeyOf(vars[i])) == i
  {
    var j := FirstIndex(vars, KeyOf(vars[i]));
    assert j <= i;
  }

  // The ordered map

  /** What the list stores under a key. */
  datatype Entry = Entry(attributes: int, count: int, timeStamp: bytes, pkIndex: int, rsvd: int,
                         vendorGuid: bytes, data: bytes)

  /** Keys in order of first insertion, and what each maps to. */
  datatype OrderedMap = OrderedMap(order: seq<Key>, at: map<Key, Entry>)
  {
    function Put(k: Key, e: Entry): OrderedMap {
      OrderedMap(if k in at then order else order + [k], at[k := e])
    }

    function Remove(k: Key): OrderedMap {
      OrderedMap(Without(order, k), at - {k})
    }

    ghost predicate Valid() {
      && (forall k :: k in at <==> k in order)
      && (forall i, j :: 0 <= i < j < |order| ==> order[i] != order[j])
    }

    /** The room the map takes when written out. */
    function Size(): nat {
      SizeOf(order, at)
    }
  }

  function Without(order: seq<Key>, k: Key): seq<Key>
  {
    if |order| == 0 then []
    else if order[0] == k then Without(order[1..], k)
    else [order[0]] + Without(order[1..], k)
  }

  function SizeOf(order: seq<Key>, at: map<Key, Entry>): nat
  {
    if |order| == 0 then 0
    else
      var data := if order[0] in at then |at[order[0]].data| else 0;
      Align4(HEADER_SIZE + |order[0].nameBlob| + data) + SizeOf(order[1..], at)
  }

  function EntryOf(v: Variable): Entry
  {
    Entry(v.attributes, v.count, v.timeStamp, v.pkIndex, v.rsvd, v.vendorGuid, v.data)
  }

  function Keys(vars: seq<Variable>): (ks: seq<Key>)
    ensures |ks| == |vars| && forall i :: 0 <= i < |vars| ==> ks[i] == KeyOf(vars[i])
  {
    if |vars| == 0 then [] else [KeyOf(vars[0])] + Keys(vars[1..])
  }

  /** The ordered map a list with unique keys stands for. */
  function Abs(vars: seq<Variable>): OrderedMap
  {
    OrderedMap(Keys(vars), map k | k in Keys(vars) :: EntryOf(vars[FirstIndex(vars, k)]))
  }

  /** The map a list with unique keys stands for, characterised pointwise. */
  lemma {:induction false} AbsIs(vars: seq<Variable>, m: OrderedMap)
    requires Unique(vars) && m.order == Keys(vars)
    requires forall k :: k in m.at ==> k in Keys(vars)
    requires forall i :: 0 <= i < |vars| ==> KeyOf(vars[i]) in m.at && m.at[KeyOf(vars[i])] == EntryOf(vars[i])
    ensures Abs(vars) == m
  {
    forall k | k in Keys(vars)
      ensures k in m.at && Abs(vars).at[k] == m.at[k]
    {
      var i := FirstIndex(vars, k);
      assert KeyOf(vars[i]) == k;
    }
    assert Abs(vars).at == m.at;
  }

  lemma {:induction false} AbsAt(vars: seq<Variable>, i: nat)
    requires Unique(vars) && i < |vars|
    ensures KeyOf(vars[i]) in Abs(vars).at && Abs(vars).at[KeyOf(vars[i])] == EntryOf(vars[i])
  {
    IndexUnique(vars, i);
    assert Keys(vars)[i] == KeyOf(vars[i]);
  }

  lemma {:induction false} AbsKnows(vars: seq<Variable>, k: Key)
    ensures k in Abs(vars).at <==> FirstIndex(vars, k) < |vars|
  {
    var i := FirstIndex(vars, k);
    if i < |vars| {
      assert Keys(vars)[i] == k;
    }
  }

  /** On live lists the map loses nothing. */
  lemma {:induction false} AbsInjective(a: seq<Variable>, b: seq<Variable>)
    requires AllLive(a) && AllLive(b) && Unique(a) && Unique(b)
    requires Abs(a) == Abs(b)
    ensures a == b
  {
    assert |a| == |Keys(a)| == |Keys(b)| == |b|;
    forall i | 0 <= i < |a|
      ensures a[i] == b[i]
    {
      AbsAt(a, i);
      AbsAt(b, i);
      assert KeyOf(a[i]) == Keys(a)[i] == Keys(b)[i] == KeyOf(b[i]);
    }
  }

  lemma {:induction false} WithoutAbsent(order: seq<Key>, k: Key)
    requires k !in order
    ensures Without(order, k) == order
  {
    if |order| > 0 {
      WithoutAbsent(order[1..], k);
      assert order == [order[0]] + order[1..];
    }
  }

  lemma {:induction false} WithoutAt(order: seq<Key>, i: nat)
    requires i < |order| && forall j, l :: 0 <= j < l < |order| ==> order[j] != order[l]
    ensures Without(order, order[i]) == order[..i] + order[i + 1..]
    decreases i
  {
    var rest := order[1..];
    if i == 0 {
      assert order[0] !in rest;
      WithoutAbsent(rest, order[0]);
    } else {
      WithoutAt(rest, i - 1);
      assert rest[..i - 1] + rest[i..] == order[1..i] + order[i + 1..];
      assert order[..i] == [order[0]] + order[1..i];
    }
  }

  lemma {:induction false} SizeOfIs(order: seq<Key>, at: map<Key, Entry>, vars: seq<Variable>)
    requires |order| == |vars|
    requires forall i :: 0 <= i < |vars| ==>
               order[i] == KeyOf(vars[i]) && order[i] in at && at[order[i]] == EntryOf(vars[i])
    ensures SizeOf(order, at) == TotalSize(vars)
  {
    if |vars| > 0 {
      SizeOfIs(order[1..], at, vars[1..]);
    }
  }

  lemma {:induction false} AbsSize(vars: seq<Variable>)
    requires Unique(vars)
    ensures Abs(vars).Valid() && Abs(vars).Size() == TotalSize(vars)
  {
    forall i | 0 <= i < |vars|
      ensures KeyOf(vars[i]) in Abs(vars).at && Abs(vars).at[KeyOf(vars[i])] == EntryOf(vars[i])
    {
      AbsAt(vars, i);
    }
    SizeOfIs(Abs(vars).order, Abs(vars).at, vars);
  }

  // Edits act on the map

  function Merged(stored: Entry, e: Edit): Entry
  {
    stored.(attributes := e.attributes, timeStamp := e.Time(),
            data := if e.append then stored.data + e.buffer else e.buffer)
  }

  function Fresh(e: Edit, guid: bytes): Entry
  {
    Entry(e.attributes, 0, e.Time(), 0, 0, guid, e.buffer)
  }

  /** `add_variable` on the map: one entry replaced, extended or put last. */
  function MapAdd(m: OrderedMap, e: Edit): Option<OrderedMap>
  {
    if e.Target() in m.at then Some(m.Put(e.Target(), Merged(m.at[e.Target()], e)))
    else
      var guid :- Str2Guid(e.guid);
      Some(m.Put(e.Target(), Fresh(e, guid)))
  }

  lemma {:induction false} AddRefines(vars: seq<Variable>, e: Edit)
    requires Unique(vars)
    ensures AddTo(vars, e).Some? <==> MapAdd(Abs(vars), e).Some?
    ensures AddTo(vars, e).Some? ==>
              Unique(AddTo(vars, e).value) && Abs(AddTo(vars, e).value) == MapAdd(Abs(vars), e).value
  {
    hide Str2Blob, Lower, Str2Guid, FirstIndex, Keys;
    AbsKnows(vars, e.Target());
    var i := FirstIndex(vars, e.Target());
    if i < |vars| {
      AddKeepsUnique(vars, e);
      AbsAt(vars, i);
      AbsReplace(vars, i, Updated(vars[i], e));
    } else if Str2Guid(e.guid).Some? {
      AddKeepsUnique(vars, e);
      AbsAppend(vars, Created(e, Str2Guid(e.guid).value));
    }
  }

  lemma {:induction false} AbsReplace(vars: seq<Variable>, i: nat, v: Variable)
    requires Unique(vars) && i < |vars| && KeyOf(v) == KeyOf(vars[i])
    ensures Abs(vars[i := v]) == Abs(vars).Put(KeyOf(v), EntryOf(v))
  {
    hide FirstIndex, Keys;
    var r, m := vars[i := v], Abs(vars).Put(KeyOf(v), EntryOf(v));
    AbsAt(vars, i);
    assert Keys(r) == Keys(vars) == m.order;
    forall j | 0 <= j < |r|
      ensures KeyOf(r[j]) in m.at && m.at[KeyOf(r[j])] == EntryOf(r[j])
    {
      AbsAt(vars, j);
    }
    AbsIs(r, m);
  }

  lemma {:induction false} AbsAppend(vars: seq<Variable>, v: Variable)
    requires Unique(vars + [v])
    ensures Abs(vars + [v]) == Abs(vars).Put(KeyOf(v), EntryOf(v))
  {
    hide Keys;
    var r, m := vars + [v], Abs(vars).Put(KeyOf(v), EntryOf(v));
    assert Unique(vars) by {
      assert forall j :: 0 <= j < |vars| ==> r[j] == vars[j];
    }
    assert KeyOf(v) !in Abs(vars).at by {
      AbsKnows(vars, KeyOf(v));
      forall j | 0 <= j < |vars|
        ensures KeyOf(vars[j]) != KeyOf(v)
      {
        assert r[j] == vars[j] && r[|vars|] == v;
      }
    }
    assert Keys(r) == Keys(vars) + [KeyOf(v)] == m.order;
    forall j | 0 <= j < |r|
      ensures KeyOf(r[j]) in m.at && m.at[KeyOf(r[j])] == EntryOf(r[j])
    {
      if j < |vars| {
        AbsAt(vars, j);
      }
    }
    AbsIs(r, m);
  }

  lemma {:induction false} DelRefines(vars: seq<Variable>, k: Key)
    requires Unique(vars) && FirstIndex(vars, k) < |vars|
    ensures Unique(DelFrom(vars, k)) && Abs(DelFrom(vars, k)) == Abs(vars).Remove(k)
  {
    hide FirstIndex, Abs, OrderedMap.Remove;
    DelKeepsUnique(vars, k);
    AbsDelete(vars, FirstIndex(vars, k), DelFrom(vars, k));
  }

  lemma {:induction false} AbsDelete(vars: seq<Variable>, i: nat, r: seq<Variable>)
    requires Unique(vars) && i < |vars| && r == vars[..i] + vars[i + 1..] && Unique(r)
    ensures Abs(r) == Abs(vars).Remove(KeyOf(vars[i]))
  {
    hide FirstIndex, Keys, Without;
    var k := KeyOf(vars[i]);
    var m := Abs(vars).Remove(k);
    assert Keys(r) == m.order by {
      WithoutAt(Keys(vars), i);
    }
    forall j | 0 <= j < |r|
      ensures KeyOf(r[j]) in m.at && m.at[KeyOf(r[j])] == EntryOf(r[j])
    {
      var l := if j < i then j else j + 1;
      AbsAt(vars, l);
      assert r[j] == vars[l] && KeyOf(vars[l]) != KeyOf(vars[i]);
    }
    assert forall q :: q in m.at ==> q in Keys(r) by {
      DeletedKeys(vars, i, r);
    }
    AbsIs(r, m);
  }

  lemma {:induction false} DeletedKeys(vars: seq<Variable>, i: nat, r: seq<Variable>)
    requires i < |vars| && r == vars[..i] + vars[i + 1..]
    ensures forall q :: q in Keys(vars) && q != KeyOf(vars[i]) ==> q in Keys(r)
  {
    hide Keys;
    forall q | q in Keys(vars) && q != KeyOf(vars[i])
      ensures q in Keys(r)
    {
      var l :| 0 <= l < |vars| && Keys(vars)[l] == q;
      assert Keys(r)[if l < i then l else l - 1] == q;
    }
  }
}
