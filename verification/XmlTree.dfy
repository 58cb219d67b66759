/** The element tree under a domain description, and the three ways the source edits it. */
module XmlTree {
  import opened Bytes

  datatype Element = Element(tag: string, text: Option<string>, attribs: map<string, string>, children: seq<Element>)

  /** `findall(tag)`: the children with this tag. */
  function Kids(children: seq<Element>, tag: string): (r: seq<Element>)
    ensures forall e :: e in r ==> e in children && e.tag == tag
  {
    if |children| == 0 then []
    else if children[0].tag == tag then [children[0]] + Kids(children[1..], tag)
    else Kids(children[1..], tag)
  }

  /** The element at a path, if every step finds exactly one child. */
  function Single(root: Element, path: seq<string>): Option<Element>
    decreases |path|
  {
    if |path| == 0 then None
    else
      var items := Kids(root.children, path[0]);
      if |items| != 1 then None
      else if |path| == 1 then Some(items[0])
      else Single(items[0], path[1..])
  }

  function Text(root: Element, path: seq<string>): Option<string>
  {
    var e := Single(root, path);
    if e.None? then None else e.value.text
  }

  function Attrib(root: Element, path: seq<string>, name: string): Option<string>
  {
    var e := Single(root, path);
    if e.Some? && name in e.value.attribs then Some(e.value.attribs[name]) else None
  }

  /** Puts an element in the place of the first child with its tag. */
  function ReplaceFirst(children: seq<Element>, e: Element): seq<Element>
  {
    if |children| == 0 then []
    else if children[0].tag == e.tag then [e] + children[1..]
    else [children[0]] + ReplaceFirst(children[1..], e)
  }

  function RemoveFirst(children: seq<Element>, tag: string): seq<Element>
  {
    if |children| == 0 then []
    else if children[0].tag == tag then children[1..]
    else [children[0]] + RemoveFirst(children[1..], tag)
  }

  datatype Change = SetText(text: Option<string>) | SetAttrib(name: string, value: string)

  function Changed(e: Element, c: Change): (r: Element)
    ensures r.tag == e.tag && r.children == e.children
  {
    match c
    case SetText(t) => e.(text := t)
    case SetAttrib(n, v) => e.(attribs := e.attribs[n := v])
  }

  /** Changes the single element at a path; None when there is none. */
  function Update(root: Element, path: seq<string>, c: Change): (r: Option<Element>)
    ensures r.Some? <==> Single(root, path).Some?
    ensures r.Some? ==> r.value.(children := root.children) == root
    decreases |path|
  {
    if |path| == 0 then None
    else
      var items := Kids(root.children, path[0]);
      if |items| != 1 then None
      else
        var item :- if |path| == 1 then Some(Changed(items[0], c)) else Update(items[0], path[1..], c);
        Some(root.(children := ReplaceFirst(root.children, item)))
  }

  /** Adds the leaf of a path below the first match of each step, creating what is missing. An existing
      leaf is reused unless several are allowed. */
  function Add(root: Element, path: seq<string>, attribs: map<string, string>, multi: bool): (r: Element)
    requires |path| > 0
    ensures r.(children := root.children) == root
    decreases |path|
  {
    var items := Kids(root.children, path[0]);
    var blank := Element(path[0], None, map[], []);
    if |path| == 1 then
      if multi || items == [] then root.(children := root.children + [blank.(attribs := attribs)])
      else root.(children := ReplaceFirst(root.children, items[0].(attribs := items[0].attribs + attribs)))
    else if items == [] then root.(children := root.children + [Add(blank, path[1..], attribs, multi)])
    else root.(children := ReplaceFirst(root.children, Add(items[0], path[1..], attribs, multi)))
  }

  /** Removes the first match of a path, following first matches. */
  function Delete(root: Element, path: seq<string>): (r: Element)
    requires |path| > 0
    ensures r.(children := root.children) == root
    decreases |path|
  {
    if |path| == 1 then root.(children := RemoveFirst(root.children, path[0]))
    else
      var items := Kids(root.children, path[0]);
      if items == [] then root
      else root.(children := ReplaceFirst(root.children, Delete(items[0], path[1..])))
  }

  // What an edit does to the children with some tag

  lemma {:induction false} KidsReplaced(children: seq<Element>, e: Element, tag: string)
    requires Kids(children, e.tag) != []
    ensures Kids(ReplaceFirst(children, e), tag)
         == if tag == e.tag then Kids(children, tag)[0 := e] else Kids(children, tag)
  {
    if children[0].tag != e.tag {
      KidsReplaced(children[1..], e, tag);
    }
  }

  lemma {:induction false} KidsAppended(children: seq<Element>, e: Element, tag: string)
    ensures Kids(children + [e], tag) == Kids(children, tag) + (if e.tag == tag then [e] else [])
  {
    if |children| == 0 {
      assert [e][1..] == [];
      assert children + [e] == [e];
    } else {
      KidsAppended(children[1..], e, tag);
      assert (children + [e])[1..] == children[1..] + [e];
    }
  }

  lemma {:induction false} KidsRemoved(children: seq<Element>, gone: string, tag: string)
    ensures Kids(RemoveFirst(children, gone), tag)
         == if tag == gone && Kids(children, tag) != [] then Kids(children, tag)[1..] else Kids(children, tag)
  {
    if |children| > 0 && children[0].tag != gone {
      KidsRemoved(children[1..], gone, tag);
    }
  }

  /** Replacing touches one position only, the first with the tag. */
  lemma {:induction false} ReplacedAt(children: seq<Element>, e: Element) returns (i: nat)
    requires Kids(children, e.tag) != []
    ensures i < |children| && children[i].tag == e.tag && children[i] == Kids(children, e.tag)[0]
    ensures forall j :: 0 <= j < i ==> children[j].tag != e.tag
    ensures ReplaceFirst(children, e) == children[i := e]
  {
    if children[0].tag == e.tag {
      i := 0;
    } else {
      var k := ReplacedAt(children[1..], e);
      i := k + 1;
    }
  }

  /** And removing takes out one position only. */
  lemma {:induction false} RemovedAt(children: seq<Element>, tag: string) returns (i: nat)
    requires Kids(children, tag) != []
    ensures i < |children| && children[i] == Kids(children, tag)[0]
    ensures forall j :: 0 <= j < i ==> children[j].tag != tag
    ensures RemoveFirst(children, tag) == children[..i] + children[i + 1..]
  {
    if children[0].tag == tag {
      i := 0;
    } else {
      var k := RemovedAt(children[1..], tag);
      i := k + 1;
    }
  }

  // Edits leave other paths alone

  /** Two paths that part ways: neither leads to or through the other. */
  predicate Diverge(p: seq<string>, q: seq<string>)
  {
    |p| > 0 && |q| > 0 && (p[0] != q[0] || Diverge(p[1..], q[1..]))
  }

  lemma {:induction false} EmptyElement(tag: string, q: seq<string>)
    ensures Single(Element(tag, None, map[], []), q) == None
  {
  }

  lemma {:induction false} UpdateKeeps(root: Element, p: seq<string>, c: Change, q: seq<string>)
    requires Diverge(p, q) && Update(root, p, c).Some?
    ensures Single(Update(root, p, c).value, q) == Single(root, q)
    decreases |p|
  {
    hide Kids, ReplaceFirst;
    var items := Kids(root.children, p[0]);
    if |p| == 1 {
      KidsReplaced(root.children, Changed(items[0], c), q[0]);
    } else {
      var item := Update(items[0], p[1..], c).value;
      KidsReplaced(root.children, item, q[0]);
      if p[0] == q[0] {
        UpdateKeeps(items[0], p[1..], c, q[1..]);
      }
    }
  }

  lemma {:induction false} AddKeeps(root: Element, p: seq<string>, attribs: map<string, string>, multi: bool,
                                    q: seq<string>)
    requires Diverge(p, q)
    ensures Single(Add(root, p, attribs, multi), q) == Single(root, q)
    decreases |p|
  {
    hide Kids, ReplaceFirst;
    var items := Kids(root.children, p[0]);
    var blank := Element(p[0], None, map[], []);
    if |p| == 1 {
      LeafKeeps(root, p, attribs, multi, q);
    } else {
      if items == [] {
        KidsAppended(root.children, Add(blank, p[1..], attribs, multi), q[0]);
        if p[0] == q[0] {
          AddKeeps(blank, p[1..], attribs, multi, q[1..]);
          EmptyElement(p[0], q[1..]);
        }
      } else {
        KidsReplaced(root.children, Add(items[0], p[1..], attribs, multi), q[0]);
        if p[0] == q[0] {
          AddKeeps(items[0], p[1..], attribs, multi, q[1..]);
        }
      }
    }
  }

  lemma {:induction false} LeafKeeps(root: Element, p: seq<string>, attribs: map<string, string>, multi: bool,
                                     q: seq<string>)
    requires |p| == 1 && Diverge(p, q)
    ensures Single(Add(root, p, attribs, multi), q) == Single(root, q)
  {
    hide Kids, ReplaceFirst;
    var items := Kids(root.children, p[0]);
    KidsAppended(root.children, Element(p[0], None, map[], []).(attribs := attribs), q[0]);
    if items != [] {
      KidsReplaced(root.children, items[0].(attribs := items[0].attribs + attribs), q[0]);
    }
  }

  lemma {:induction false} DeleteKeeps(root: Element, p: seq<string>, q: seq<string>)
    requires Diverge(p, q)
    ensures Single(Delete(root, p), q) == Single(root, q)
    decreases |p|
  {
    hide Kids, ReplaceFirst, RemoveFirst;
    var items := Kids(root.children, p[0]);
    if |p| == 1 {
      KidsRemoved(root.children, p[0], q[0]);
    } else if items != [] {
      KidsReplaced(root.children, Delete(items[0], p[1..]), q[0]);
      if p[0] == q[0] {
        DeleteKeeps(items[0], p[1..], q[1..]);
      }
    }
  }

  // Edits take effect on their own path

  lemma {:induction false} UpdateSets(root: Element, p: seq<string>, c: Change)
    requires Single(root, p).Some?
    ensures Single(Update(root, p, c).value, p) == Some(Changed(Single(root, p).value, c))
    decreases |p|
  {
    hide Kids, ReplaceFirst;
    var items := Kids(root.children, p[0]);
    if |p| == 1 {
      KidsReplaced(root.children, Changed(items[0], c), p[0]);
    } else {
      UpdateSets(items[0], p[1..], c);
      KidsReplaced(root.children, Update(items[0], p[1..], c).value, p[0]);
    }
  }

  lemma {:induction false} DeleteRemoves(root: Element, p: seq<string>)
    requires Single(root, p).Some?
    ensures Single(Delete(root, p), p) == None
    decreases |p|
  {
    hide Kids, ReplaceFirst, RemoveFirst;
    var items := Kids(root.children, p[0]);
    if |p| == 1 {
      KidsRemoved(root.children, p[0], p[0]);
    } else {
      DeleteRemoves(items[0], p[1..]);
      KidsReplaced(root.children, Delete(items[0], p[1..]), p[0]);
    }
  }

  /** No step of the path has a choice. */
  predicate Unambiguous(root: Element, path: seq<string>)
    decreases |path|
  {
    |path| == 0
    || var items := Kids(root.children, path[0]);
       |items| == 0 || (|items| == 1 && Unambiguous(items[0], path[1..]))
  }

  /** Adding a leaf that may not be repeated: it is there afterwards, with the given attributes over those
      it had, and otherwise as it was, or empty if it is new. */
  lemma {:induction false} AddSets(root: Element, path: seq<string>, attribs: map<string, string>)
    requires |path| > 0 && Unambiguous(root, path)
    ensures var before := Single(root, path);
            Single(Add(root, path, attribs, false), path)
            == Some(if before.Some? then before.value.(attribs := before.value.attribs + attribs)
                    else Element(path[|path| - 1], None, attribs, []))
    decreases |path|
  {
    hide Kids, ReplaceFirst;
    var items, blank := Kids(root.children, path[0]), Element(path[0], None, map[], []);
    if |path| == 1 {
      if items == [] {
        KidsAppended(root.children, blank.(attribs := attribs), path[0]);
      } else {
        KidsReplaced(root.children, items[0].(attribs := items[0].attribs + attribs), path[0]);
      }
    } else if items == [] {
      EmptyUnambiguous(path[0], path[1..]);
      EmptyElement(path[0], path[1..]);
      AddSets(blank, path[1..], attribs);
      KidsAppended(root.children, Add(blank, path[1..], attribs, false), path[0]);
    } else {
      AddSets(items[0], path[1..], attribs);
      KidsReplaced(root.children, Add(items[0], path[1..], attribs, false), path[0]);
    }
  }

  /** The element reached by taking the first child with each tag. */
  function First(root: Element, path: seq<string>): Option<Element>
    decreases |path|
  {
    if |path| == 0 then Some(root)
    else
      var items := Kids(root.children, path[0]);
      if items == [] then None else First(items[0], path[1..])
  }

  /** Where a step has a choice, the first match is taken: that is where the leaf is afterwards. */
  lemma {:induction false} AddAtFirst(root: Element, path: seq<string>, attribs: map<string, string>)
    requires |path| > 0
    ensures var before := First(root, path);
            First(Add(root, path, attribs, false), path)
            == Some(if before.Some? then before.value.(attribs := before.value.attribs + attribs)
                    else Element(path[|path| - 1], None, attribs, []))
    decreases |path|
  {
    hide Kids, ReplaceFirst;
    var items, blank := Kids(root.children, path[0]), Element(path[0], None, map[], []);
    if |path| == 1 {
      if items == [] {
        KidsAppended(root.children, blank.(attribs := attribs), path[0]);
      } else {
        KidsReplaced(root.children, items[0].(attribs := items[0].attribs + attribs), path[0]);
      }
    } else if items == [] {
      NothingFirst(path[0], path[1..]);
      AddAtFirst(blank, path[1..], attribs);
      KidsAppended(root.children, Add(blank, path[1..], attribs, false), path[0]);
    } else {
      AddAtFirst(items[0], path[1..], attribs);
      KidsReplaced(root.children, Add(items[0], path[1..], attribs, false), path[0]);
    }
  }

  lemma {:induction false} NothingFirst(tag: string, path: seq<string>)
    requires |path| > 0
    ensures First(Element(tag, None, map[], []), path) == None
  {
  }

  lemma {:induction false} EmptyUnambiguous(tag: string, path: seq<string>)
    ensures Unambiguous(Element(tag, None, map[], []), path)
  {
  }

  /** Afterwards every step on the way has exactly one element. */
  lemma {:induction false} AddMakesPath(root: Element, path: seq<string>, attribs: map<string, string>, n: nat)
    requires 0 < n <= |path| && Unambiguous(root, path)
    ensures Single(Add(root, path, attribs, false), path[..n]).Some?
    decreases |path|
  {
    hide Kids, ReplaceFirst;
    var items, blank := Kids(root.children, path[0]), Element(path[0], None, map[], []);
    if n == |path| {
      AddSets(root, path, attribs);
      assert path[..n] == path;
    } else {
      assert path[..n][1..] == path[1..][..n - 1];
      if items == [] {
        EmptyUnambiguous(path[0], path[1..]);
        KidsAppended(root.children, Add(blank, path[1..], attribs, false), path[0]);
        if n > 1 {
          AddMakesPath(blank, path[1..], attribs, n - 1);
        }
      } else {
        KidsReplaced(root.children, Add(items[0], path[1..], attribs, false), path[0]);
        if n > 1 {
          AddMakesPath(items[0], path[1..], attribs, n - 1);
        }
      }
    }
  }

  /** Changing an element leaves those below it and above it where they are. */
  lemma {:induction false} UpdateAbove(root: Element, p: seq<string>, c: Change, q: seq<string>)
    requires 0 < |p| < |q| && q[..|p|] == p && Update(root, p, c).Some?
    ensures Single(Update(root, p, c).value, q) == Single(root, q)
    decreases |p|
  {
    hide Kids, ReplaceFirst;
    var items := Kids(root.children, p[0]);
    assert q[0] == p[0];
    if |p| == 1 {
      KidsReplaced(root.children, Changed(items[0], c), q[0]);
      ChangedKeeps(items[0], c, q[1..]);
    } else {
      assert q[1..][..|p| - 1] == p[1..];
      UpdateAbove(items[0], p[1..], c, q[1..]);
      KidsReplaced(root.children, Update(items[0], p[1..], c).value, q[0]);
    }
  }

  lemma {:induction false} ChangedKeeps(e: Element, c: Change, q: seq<string>)
    ensures Single(Changed(e, c), q) == Single(e, q)
  {
  }

  /** Neither adding such a leaf nor changing an element gives any path a choice. */
  lemma {:induction false} AddUnambiguous(root: Element, p: seq<string>, attribs: map<string, string>, q: seq<string>)
    requires |p| > 0 && Unambiguous(root, p) && Unambiguous(root, q)
    ensures Unambiguous(Add(root, p, attribs, false), q)
    decreases |p|
  {
    hide Kids, ReplaceFirst;
    if |q| > 0 {
      var items, blank := Kids(root.children, p[0]), Element(p[0], None, map[], []);
      var item := if items == [] then blank else items[0];
      var grown := if |p| == 1 then item.(attribs := item.attribs + attribs)
                   else Add(item, p[1..], attribs, false);
      EmptyUnambiguous(p[0], p[1..]);
      EmptyUnambiguous(p[0], q[1..]);
      if p[0] == q[0] {
        if |p| == 1 {
          SameChildren(item, grown, q[1..]);
        } else {
          AddUnambiguous(item, p[1..], attribs, q[1..]);
        }
      }
      if items == [] {
        assert map[] + attribs == attribs;
        KidsAppended(root.children, grown, q[0]);
      } else {
        KidsReplaced(root.children, grown, q[0]);
      }
    }
  }

  lemma {:induction false} SameChildren(a: Element, b: Element, q: seq<string>)
    requires a.children == b.children
    ensures Unambiguous(a, q) == Unambiguous(b, q)
  {
  }

  lemma {:induction false} UpdateUnambiguous(root: Element, p: seq<string>, c: Change, q: seq<string>)
    requires Update(root, p, c).Some? && Unambiguous(root, q)
    ensures Unambiguous(Update(root, p, c).value, q)
    decreases |p|
  {
    hide Kids, ReplaceFirst;
    if |q| > 0 {
      var items := Kids(root.children, p[0]);
      var item := if |p| == 1 then Changed(items[0], c) else Update(items[0], p[1..], c).value;
      if p[0] == q[0] {
        if |p| == 1 {
          SameChildren(items[0], item, q[1..]);
        } else {
          UpdateUnambiguous(items[0], p[1..], c, q[1..]);
        }
      }
      KidsReplaced(root.children, item, q[0]);
    }
  }

  // Leaves that may be repeated

  /** The attributes of all leaves of one kind, in order. */
  function Leaves(root: Element, outer: string, tag: string): seq<map<string, string>>
  {
    var items := Kids(root.children, outer);
    if items == [] then [] else Attribs(Kids(items[0].children, tag))
  }

  function Attribs(items: seq<Element>): (r: seq<map<string, string>>)
    ensures |r| == |items| && forall i :: 0 <= i < |items| ==> r[i] == items[i].attribs
  {
    if |items| == 0 then [] else [items[0].attribs] + Attribs(items[1..])
  }

  /** Adding one puts it last among its kind and leaves the other kinds alone. */
  lemma {:induction false} LeafAdded(root: Element, outer: string, tag: string, attribs: map<string, string>,
                                     other: string)
    ensures Leaves(Add(root, [outer, tag], attribs, true), outer, other)
         == Leaves(root, outer, other) + (if other == tag then [attribs] else [])
  {
    hide Kids, ReplaceFirst, Attribs;
    var path := [outer, tag];
    assert path[1..] == [tag];
    var items := Kids(root.children, outer);
    var blank := Element(outer, None, map[], []);
    var leaf := Element(tag, None, map[], []).(attribs := attribs);
    var item := if items == [] then blank else items[0];
    var grown := item.(children := item.children + [leaf]);
    assert Add(item, [tag], attribs, true) == grown;
    KidsAppended(item.children, leaf, other);
    AttribsAppend(Kids(item.children, other), leaf);
    assert Kids(item.children, other) + [] == Kids(item.children, other);
    if items == [] {
      KidsAppended(root.children, grown, outer);
      NoKids(other);
      assert [] + [grown] == [grown];
    } else {
      KidsReplaced(root.children, grown, outer);
    }
  }

  lemma {:induction false} AttribsAppend(a: seq<Element>, e: Element)
    ensures Attribs(a + [e]) == Attribs(a) + [e.attribs]
  {
    if |a| == 0 {
      assert a + [e] == [e] && [e][1..] == [];
    } else {
      AttribsAppend(a[1..], e);
      assert (a + [e])[1..] == a[1..] + [e];
    }
  }

  lemma {:induction false} NoKids(tag: string)
    ensures Kids([], tag) == [] && Attribs([]) == []
  {
  }
}
