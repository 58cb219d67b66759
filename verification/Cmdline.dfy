/** Editing a kernel command line: what the edits do to its tokens. Space is the only whitespace. */
module Cmdline {

  /** `s.strip()`. */
  function Strip(s: string): (r: string)
    ensures |r| <= |s|
  {
    if |s| == 0 then s
    else if s[0] == ' ' then Strip(s[1..])
    else if s[|s| - 1] == ' ' then Strip(s[..|s| - 1])
    else s
  }

  /** The part of `s` before the first `c`, or all of it. */
  function Before(s: string, c: char): (r: string)
    ensures |r| <= |s| && s[..|r|] == r
    ensures forall i :: 0 <= i < |r| ==> r[i] != c
    ensures |r| < |s| ==> s[|r|] == c
  {
    if |s| == 0 || s[0] == c then "" else [s[0]] + Before(s[1..], c)
  }

  /** `s.split(' ')`. */
  function Split(s: string): (r: seq<string>)
    ensures |r| > 0
  {
    var head := Before(s, ' ');
    if |head| == |s| then [s] else [head] + Split(s[|head| + 1..])
  }

  function NonEmpty(items: seq<string>): (r: seq<string>)
    ensures forall t :: t in r <==> t in items && t != ""
  {
    if |items| == 0 then []
    else
      var rest := NonEmpty(items[1..]);
      if items[0] == "" then rest else [items[0]] + rest
  }

  /** The tokens of a command line: what is left of the split when empty items are dropped. */
  function Tokens(s: string): seq<string>
  {
    NonEmpty(Split(s))
  }

  /** The key of an item: what precedes its first '='. */
  function KeyOf(item: string): string
  {
    Before(item, '=')
  }

  function Without(items: seq<string>, key: string): seq<string>
  {
    if |items| == 0 then []
    else if KeyOf(items[0]) == key then Without(items[1..], key)
    else [items[0]] + Without(items[1..], key)
  }

  // What keys, items and stripping are

  /** Spelled out: the item is the key alone, or the key, '=' and anything. */
  predicate HasKey(item: string, key: string)
  {
    item == key || (|key| < |item| && item[..|key|] == key && item[|key|] == '=')
  }

  /** An item has a key without '=' exactly when it is spelled like that; a text with '=' is no item's key. */
  lemma {:induction false} KeySpelled(item: string, key: string)
    ensures KeyOf(item) == key <==> '=' !in key && HasKey(item, key)
  {
    var k := KeyOf(item);
    assert '=' !in k;
    if '=' !in key && HasKey(item, key) {
      assert k == item[..|k|] && key == item[..|key|];
    }
    if k == key && |k| == |item| {
      assert item[..|k|] == item;
    }
  }

  /** Items joined by single spaces. */
  function Join(items: seq<string>): string
  {
    if |items| == 0 then ""
    else if |items| == 1 then items[0]
    else items[0] + " " + Join(items[1..])
  }

  ghost predicate Spaceless(items: seq<string>)
  {
    forall i :: 0 <= i < |items| ==> ' ' !in items[i]
  }

  /** Splitting undoes joining, and gives the only items without a space that do. */
  lemma {:induction false} SplitIsJoin(s: string)
    ensures Join(Split(s)) == s && Spaceless(Split(s))
    decreases |s|
  {
    var head := Before(s, ' ');
    assert ' ' !in head;
    if |head| < |s| {
      var rest := s[|head| + 1..];
      SplitIsJoin(rest);
      assert Split(s)[1..] == Split(rest);
      assert s == head + " " + rest;
      forall i | 0 <= i < |Split(s)|
        ensures ' ' !in Split(s)[i]
      {
        if i > 0 {
          assert Split(s)[i] == Split(rest)[i - 1];
        }
      }
    } else {
      assert s[..|head|] == s;
    }
  }

  lemma {:induction false} SplitOfJoin(items: seq<string>)
    requires |items| > 0 && Spaceless(items)
    ensures Split(Join(items)) == items
    decreases |items|
  {
    NoSpace(items[0]);
    if |items| == 1 {
    } else {
      assert Spaceless(items[1..]);
      SplitOfJoin(items[1..]);
      SplitAppend(items[0], Join(items[1..]));
      assert Split(items[0]) == [items[0]];
    }
  }

  ghost predicate Blank(s: string)
  {
    forall i :: 0 <= i < |s| ==> s[i] == ' '
  }

  /** Stripping takes away spaces at both ends, all of them, and nothing else. */
  lemma {:induction false} StripIs(s: string) returns (a: string, b: string)
    ensures Blank(a) && Blank(b) && s == a + Strip(s) + b
    ensures Strip(s) != "" ==> Strip(s)[0] != ' ' && Strip(s)[|Strip(s)| - 1] != ' '
    decreases |s|
  {
    a, b := "", "";
    if |s| == 0 {
    } else if s[0] == ' ' {
      a, b := StripIs(s[1..]);
      a := " " + a;
    } else if s[|s| - 1] == ' ' {
      a, b := StripIs(s[..|s| - 1]);
      b := b + " ";
      assert s == s[..|s| - 1] + " ";
    }
  }

  // Splitting

  lemma {:induction false} BeforeAppend(a: string, b: string)
    ensures Before(a + " " + b, ' ') == Before(a, ' ')
    decreases |a|
  {
    if |a| > 0 && a[0] != ' ' {
      BeforeAppend(a[1..], b);
      assert (a + " " + b)[1..] == a[1..] + " " + b;
    }
  }

  lemma {:induction false} SplitAppend(a: string, b: string)
    ensures Split(a + " " + b) == Split(a) + Split(b)
    decreases |a|
  {
    hide Before;
    BeforeAppend(a, b);
    var s, head := a + " " + b, Before(a, ' ');
    if |head| == |a| {
      assert s[|head| + 1..] == b;
      assert a[..|head|] == a;
    } else {
      var rest := a[|head| + 1..];
      SplitAppend(rest, b);
      assert s[|head| + 1..] == rest + " " + b;
      assert [head] + (Split(rest) + Split(b)) == ([head] + Split(rest)) + Split(b);
    }
  }

  lemma {:induction false} NonEmptyAppend(a: seq<string>, b: seq<string>)
    ensures NonEmpty(a + b) == NonEmpty(a) + NonEmpty(b)
    decreases |a|
  {
    if |a| == 0 {
      assert a + b == b;
    } else {
      NonEmptyAppend(a[1..], b);
      assert (a + b)[1..] == a[1..] + b;
    }
  }

  lemma {:induction false} TokensAppend(a: string, b: string)
    ensures Tokens(a + " " + b) == Tokens(a) + Tokens(b)
  {
    SplitAppend(a, b);
    NonEmptyAppend(Split(a), Split(b));
  }

  lemma {:induction false} EmptyTokens()
    ensures Tokens("") == []
  {
    assert Split("") == [""] && [""][1..] == [];
    assert NonEmpty([""]) == NonEmpty([]);
  }

  /** Stripping loses no token. */
  lemma {:induction false} TokensStrip(s: string)
    ensures Tokens(Strip(s)) == Tokens(s)
    decreases |s|
  {
    hide Tokens;
    EmptyTokens();
    if |s| > 0 {
      if s[0] == ' ' {
        TokensStrip(s[1..]);
        TokensAppend("", s[1..]);
        assert "" + " " + s[1..] == s;
        assert [] + Tokens(s[1..]) == Tokens(s[1..]);
      } else if s[|s| - 1] == ' ' {
        var init := s[..|s| - 1];
        TokensStrip(init);
        TokensAppend(init, "");
        assert init + " " + "" == s;
        assert Tokens(init) + [] == Tokens(init);
      }
    }
  }

  /** A non-empty item is looked up among the stripped items exactly when it is a token. */
  lemma {:induction false} ItemIsToken(s: string, item: string)
    requires item != ""
    ensures item in Split(Strip(s)) <==> item in Tokens(s)
  {
    TokensStrip(s);
  }

  /** Items contain no space, so a single item is its own only token. */
  lemma {:induction false} ItemTokens(item: string)
    requires Before(item, ' ') == item
    ensures Tokens(item) == if item == "" then [] else [item]
  {
    assert Split(item) == [item] && [item][1..] == [];
    assert NonEmpty([]) == [];
  }

  lemma {:induction false} SplitItems(s: string, i: nat)
    requires i < |Split(s)|
    ensures Before(Split(s)[i], ' ') == Split(s)[i]
    decreases |s|
  {
    var head := Before(s, ' ');
    if i == 0 {
      NoSpace(head);
    } else {
      SplitItems(s[|head| + 1..], i - 1);
    }
  }

  lemma {:induction false} NoSpace(s: string)
    requires forall i :: 0 <= i < |s| ==> s[i] != ' '
    ensures Before(s, ' ') == s
  {
    if |s| > 0 {
      NoSpace(s[1..]);
    }
  }

  // Removing a key

  /** Joins what is kept, each item after a space. */
  function JoinKept(items: seq<string>, key: string): string
  {
    if |items| == 0 then ""
    else
      var init, last := JoinKept(items[..|items| - 1], key), items[|items| - 1];
      if KeyOf(last) == key then init else init + " " + last
  }

  function RemoveFields(cmdline: string, key: string): string
  {
    JoinKept(Split(Strip(cmdline)), Strip(key))
  }

  lemma {:induction false} WithoutAppend(a: seq<string>, b: seq<string>, key: string)
    ensures Without(a + b, key) == Without(a, key) + Without(b, key)
    decreases |a|
  {
    if |a| == 0 {
      assert a + b == b;
    } else {
      WithoutAppend(a[1..], b, key);
      assert (a + b)[1..] == a[1..] + b;
    }
  }

  lemma {:induction false} JoinKeptTokens(items: seq<string>, key: string)
    requires forall i :: 0 <= i < |items| ==> Before(items[i], ' ') == items[i]
    ensures Tokens(JoinKept(items, key)) == Without(NonEmpty(items), key)
    decreases |items|
  {
    hide Tokens, NonEmpty, Without, Before, KeyOf;
    EmptyTokens();
    NoItems(key);
    if |items| > 0 {
      var init, last := items[..|items| - 1], items[|items| - 1];
      JoinKeptTokens(init, key);
      ItemTokens(last);
      assert items == init + [last];
      NonEmptyAppend(init, [last]);
      WithoutAppend(NonEmpty(init), NonEmpty([last]), key);
      OneItem(last, key);
      if KeyOf(last) != key {
        TokensAppend(JoinKept(init, key), last);
      }
      assert Tokens(JoinKept(init, key)) + [] == Tokens(JoinKept(init, key));
    }
  }

  lemma {:induction false} NoItems(key: string)
    ensures NonEmpty([]) == [] && Without([], key) == []
  {
  }

  lemma {:induction false} OneItem(item: string, key: string)
    ensures NonEmpty([item]) == if item == "" then [] else [item]
    ensures Without(NonEmpty([item]), key) == if item == "" || KeyOf(item) == key then [] else [item]
  {
    assert [item][1..] == [];
    assert NonEmpty([]) == [] && Without([], key) == [];
  }

  /** Removing a key leaves exactly the tokens with another key, in order. */
  lemma {:induction false} RemoveFieldsTokens(cmdline: string, key: string)
    ensures Tokens(RemoveFields(cmdline, key)) == Without(Tokens(cmdline), Strip(key))
  {
    hide Strip, Split, NonEmpty;
    var items := Split(Strip(cmdline));
    forall i | 0 <= i < |items|
      ensures Before(items[i], ' ') == items[i]
    {
      SplitItems(Strip(cmdline), i);
    }
    JoinKeptTokens(items, Strip(key));
    TokensStrip(cmdline);
  }

  /** In terms of spelling: what remains are the tokens that neither are the stripped key nor start with
      it and '='. A key that itself contains '=' removes nothing. */
  lemma {:induction false} RemoveFieldsSpelled(cmdline: string, key: string, token: string)
    ensures token in Tokens(RemoveFields(cmdline, key))
       <==> token in Tokens(cmdline) && ('=' in Strip(key) || !HasKey(token, Strip(key)))
    ensures '=' in Strip(key) ==> Tokens(RemoveFields(cmdline, key)) == Tokens(cmdline)
  {
    hide Tokens, Strip, RemoveFields, HasKey, KeyOf;
    RemoveFieldsTokens(cmdline, key);
    KeySpelled(token, Strip(key));
    InWithout(Tokens(cmdline), Strip(key), token);
    if '=' in Strip(key) {
      NothingWithout(Tokens(cmdline), Strip(key));
    }
  }

  lemma {:induction false} InWithout(items: seq<string>, key: string, token: string)
    ensures token in Without(items, key) <==> token in items && KeyOf(token) != key
  {
    hide KeyOf;
    if |items| > 0 {
      InWithout(items[1..], key, token);
    }
  }

  lemma {:induction false} NothingWithout(items: seq<string>, key: string)
    requires '=' in key
    ensures Without(items, key) == items
  {
    hide KeyOf;
    if |items| > 0 {
      KeySpelled(items[0], key);
      NothingWithout(items[1..], key);
    }
  }

  /** The exact text: every kept item, empty ones included, behind one space. */
  lemma {:induction false} RemoveFieldsText(cmdline: string, key: string)
    ensures RemoveFields(cmdline, key) == SpaceBefore(Without(Split(Strip(cmdline)), Strip(key)))
  {
    hide Strip, Split;
    KeptText(Split(Strip(cmdline)), Strip(key));
  }

  function SpaceBefore(items: seq<string>): string
  {
    if |items| == 0 then "" else SpaceBefore(items[..|items| - 1]) + " " + items[|items| - 1]
  }

  lemma {:induction false} KeptText(items: seq<string>, key: string)
    ensures JoinKept(items, key) == SpaceBefore(Without(items, key))
    decreases |items|
  {
    hide KeyOf;
    if |items| > 0 {
      var init, last := items[..|items| - 1], items[|items| - 1];
      KeptText(init, key);
      WithoutAppend(init, [last], key);
      assert items == init + [last] && [last][1..] == [];
      var kept := Without(init, key);
      assert Without([last], key) == if KeyOf(last) == key then [] else [last];
      assert (kept + [last])[..|kept|] == kept && kept + [] == kept;
    }
  }

  // Appending a value

  /** One pass over the items: the whole value is appended whenever an item is missing. */
  function AppendFor(cmdline: string, value: string, items: seq<string>): string
    decreases |items|
  {
    if |items| == 0 then cmdline
    else
      var next := if items[0] in Split(Strip(cmdline)) then cmdline else cmdline + " " + value;
      AppendFor(next, value, items[1..])
  }

  function IAdd(cmdline: string, value: string): string
  {
    AppendFor(cmdline, value, Split(value))
  }

  /** No leading, trailing or doubled space, and not empty. */
  predicate SingleSpaced(value: string)
  {
    "" !in Split(value)
  }

  ghost predicate AllIn(items: seq<string>, tokens: seq<string>)
  {
    forall t :: t in items ==> t in tokens
  }

  lemma {:induction false} AppendForIs(cmdline: string, value: string, items: seq<string>)
    requires SingleSpaced(value) && forall t :: t in items ==> t in Split(value)
    ensures AppendFor(cmdline, value, items)
         == if AllIn(items, Tokens(cmdline)) then cmdline else cmdline + " " + value
    decreases |items|
  {
    hide Tokens, Split, Strip;
    if |items| > 0 {
      ItemIsToken(cmdline, items[0]);
      assert AllIn(items, Tokens(cmdline)) <==> items[0] in Tokens(cmdline) && AllIn(items[1..], Tokens(cmdline));
      if items[0] in Tokens(cmdline) {
        AppendForIs(cmdline, value, items[1..]);
      } else {
        var next := cmdline + " " + value;
        AppendForIs(next, value, items[1..]);
        TokensAppend(cmdline, value);
        ValueTokens(value);
        assert AllIn(items[1..], Tokens(next));
      }
    }
  }

  lemma {:induction false} ValueTokens(value: string)
    requires SingleSpaced(value)
    ensures forall t :: t in Tokens(value) <==> t in Split(value)
  {
  }

  /** Appending a single-spaced value adds it at most once, makes all its tokens present, keeps the
      tokens that were there, and doing it again changes nothing. */
  lemma {:induction false} IAddTokens(cmdline: string, value: string)
    requires SingleSpaced(value)
    ensures var r := IAdd(cmdline, value);
            && r == (if AllIn(Split(value), Tokens(cmdline)) then cmdline else cmdline + " " + value)
            && AllIn(Split(value), Tokens(r))
            && Tokens(r) == Tokens(cmdline) + (if AllIn(Split(value), Tokens(cmdline)) then [] else Tokens(value))
            && IAdd(r, value) == r
  {
    hide Tokens, Split, Strip;
    AppendForIs(cmdline, value, Split(value));
    TokensAppend(cmdline, value);
    ValueTokens(value);
    assert Tokens(cmdline) + [] == Tokens(cmdline);
    AppendForIs(IAdd(cmdline, value), value, Split(value));
  }

  /** So many copies of a value, each behind a space. */
  function Copies(value: string, n: nat): string
  {
    if n == 0 then "" else " " + value + Copies(value, n - 1)
  }

  /** Appending any value, however it is spaced, adds whole copies of it, at most one for each of its
      items; none if and only if all its items are there already. Afterwards all its tokens are present
      and the old ones still in front. */
  lemma {:induction false} IAddAny(cmdline: string, value: string) returns (n: nat)
    ensures IAdd(cmdline, value) == cmdline + Copies(value, n) && n <= |Split(value)|
    ensures n == 0 <==> AllIn(Split(value), Split(Strip(cmdline)))
    ensures AllIn(Tokens(value), Tokens(IAdd(cmdline, value))) && Tokens(cmdline) <= Tokens(IAdd(cmdline, value))
  {
    hide Tokens, Split, Strip, Copies, AppendFor;
    n := AppendsCopies(cmdline, value, Split(value));
    CopiesTokens(cmdline, value, n);
    if n == 0 {
      TokensStrip(cmdline);
      TokensAreItems(value);
      TokensAreItems(Strip(cmdline));
      NoCopies(value);
      assert cmdline + "" == cmdline;
    }
  }

  lemma {:induction false} NoCopies(value: string)
    ensures Copies(value, 0) == ""
  {
  }

  lemma {:induction false} TokensAreItems(s: string)
    ensures forall t :: t in Tokens(s) <==> t in Split(s) && t != ""
  {
  }

  lemma {:induction false} AppendsCopies(cmdline: string, value: string, items: seq<string>) returns (n: nat)
    ensures AppendFor(cmdline, value, items) == cmdline + Copies(value, n) && n <= |items|
    ensures n == 0 <==> AllIn(items, Split(Strip(cmdline)))
    decreases |items|
  {
    hide Split, Strip;
    if |items| == 0 {
      n := 0;
      assert cmdline + "" == cmdline;
    } else if items[0] in Split(Strip(cmdline)) {
      n := AppendsCopies(cmdline, value, items[1..]);
      assert AllIn(items, Split(Strip(cmdline))) <==> AllIn(items[1..], Split(Strip(cmdline)));
    } else {
      var next := cmdline + " " + value;
      var k := AppendsCopies(next, value, items[1..]);
      n := k + 1;
      assert next + Copies(value, k) == cmdline + (" " + value + Copies(value, k));
    }
  }

  lemma {:induction false} CopiesTokens(cmdline: string, value: string, n: nat)
    ensures Tokens(cmdline) <= Tokens(cmdline + Copies(value, n))
    ensures n > 0 ==> AllIn(Tokens(value), Tokens(cmdline + Copies(value, n)))
    decreases n
  {
    hide Tokens;
    if n == 0 {
      assert cmdline + "" == cmdline;
    } else {
      var next := cmdline + " " + value;
      CopiesTokens(next, value, n - 1);
      TokensAppend(cmdline, value);
      assert cmdline + Copies(value, n) == next + Copies(value, n - 1);
      PrefixIn(Tokens(next), Tokens(cmdline + Copies(value, n)));
      assert forall t :: t in Tokens(value) ==> t in Tokens(next);
    }
  }

  lemma {:induction false} PrefixIn(a: seq<string>, b: seq<string>)
    requires a <= b
    ensures AllIn(a, b)
  {
    assert forall i :: 0 <= i < |a| ==> a[i] == b[i];
  }

  /** A value with a space at its end can indeed be added twice in one go. */
  lemma {:induction false} TrailingSpaceTwice()
    ensures IAdd("x", "a ") == "x a  a "
  {
    hide Split, Strip;
    SomeSplits();
    SomeStrips();
    var value, one, two := "a ", "x a ", "x a  a ";
    var items := ["a", ""];
    assert items[1..] == [""] && [""][1..] == [];
    assert "x" + " " + value == one && one + " " + value == two;
    assert AppendFor(two, value, []) == two;
    assert AppendFor(one, value, [""]) == two;
  }

  lemma {:induction false} SomeSplits()
    ensures Split("a ") == ["a", ""] && Split("x") == ["x"] && Split("x a") == ["x", "a"]
  {
    hide Before;
    NoSpace("a");
    NoSpace("x");
    NoSpace("");
    assert Split("a") == ["a"] && Split("x") == ["x"] && Split("") == [""];
    SplitAppend("a", "");
    SplitAppend("x", "a");
    assert "a" + " " + "" == "a " && "x" + " " + "a" == "x a";
  }

  lemma {:induction false} SomeStrips()
    ensures Strip("x") == "x" && Strip("x a ") == "x a"
  {
    assert "x a "[..3] == "x a";
    assert Strip("x a") == "x a";
  }

  // The object

  class KernelCmdline {
    var cmdline: string

    constructor (default: string)
      ensures cmdline == default
    {
      cmdline := default;
    }

    /** `cmdobj += value`. */
    method Append(value: string)
      modifies this
      ensures cmdline == IAdd(old(cmdline), value)
    {
      var items := Split(value);
      for k := 0 to |items|
        invariant AppendFor(cmdline, value, items[k..]) == IAdd(old(cmdline), value)
      {
        assert items[k..][0] == items[k] && items[k..][1..] == items[k + 1..];
        if items[k] !in Split(Strip(cmdline)) {
          cmdline := cmdline + " " + value;
        }
      }
    }

    method Remove(key: string)
      modifies this
      ensures cmdline == RemoveFields(old(cmdline), key)
    {
      var items := Split(Strip(cmdline));
      var kept := "";
      for k := 0 to |items|
        invariant kept == JoinKept(items[..k], Strip(key))
      {
        assert items[..k + 1][..k] == items[..k];
        if KeyOf(items[k]) != Strip(key) {
          kept := kept + " " + items[k];
        }
      }
      assert items[..|items|] == items;
      cmdline := kept;
    }
  }
}
