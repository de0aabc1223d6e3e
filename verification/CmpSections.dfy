/**
 Section lists of `cmp`: names separated by commas or white space are taken from the
 right, and the first section that yields a value decides.
 */
module CmpSections {
  import opened Wrappers

  const SectionNameMax: nat := 40

  predicate IsSeparator(c: char) {
    c == ',' || c == ' ' || '\t' <= c <= '\r'
  }

  // ----- prev_item -----

  /** The start of the item that ends at `end`. */
  function ItemStart(opt: string, end: nat): (b: nat)
    requires end <= |opt|
    ensures b <= end
    ensures forall i :: b <= i < end ==> !IsSeparator(opt[i])
    ensures b > 0 ==> IsSeparator(opt[b - 1])
  {
    if end == 0 || IsSeparator(opt[end - 1]) then end else ItemStart(opt, end - 1)
  }

  /** The end of whatever stands before the separators that end at `beg`. */
  function SkipSeparators(opt: string, beg: nat): (e: nat)
    requires beg <= |opt|
    ensures e <= beg
    ensures forall i :: e <= i < beg ==> IsSeparator(opt[i])
    ensures e > 0 ==> !IsSeparator(opt[e - 1])
  {
    if beg == 0 || !IsSeparator(opt[beg - 1]) then beg else SkipSeparators(opt, beg - 1)
  }

  function Cut(s: string): (r: string)
    ensures r <= s && |r| == if |s| > 40 then 40 else |s|
  {
    if |s| > SectionNameMax then s[..SectionNameMax] else s
  }

  /** The option list with its static buffer for one item. */
  class ItemReader {
    const opt: string
    var item: string

    constructor (opt: string)
      ensures this.opt == opt
    {
      this.opt, this.item := opt, "";
    }

    /** Fills the buffer with the item that ends at `end` and returns where the item
        before it ends, strictly further left; None at the beginning of the list. */
    method PrevItem(end: nat) returns (r: Option<nat>)
      requires end <= |opt|
      modifies this
      ensures end == 0 ==> r == None && item == old(item)
      ensures end > 0 ==>
        var b := ItemStart(opt, end);
        r == Some(SkipSeparators(opt, b)) && item == Cut(opt[b..end]) && r.value < end
    {
      if end == 0 {
        return None;
      }
      var beg := end;
      while beg > 0
        invariant 0 <= beg <= end
        invariant ItemStart(opt, end) == ItemStart(opt, beg)
      {
        beg := beg - 1;
        if IsSeparator(opt[beg]) {
          beg := beg + 1;
          break;
        }
      }
      var len := end - beg;
      if len > SectionNameMax {
        len := SectionNameMax;
      }
      item := opt[beg..beg + len];
      ghost var b := beg;
      while beg > 0
        invariant 0 <= beg <= b
        invariant SkipSeparators(opt, b) == SkipSeparators(opt, beg)
      {
        beg := beg - 1;
        if !IsSeparator(opt[beg]) {
          beg := beg + 1;
          break;
        }
      }
      r := Some(beg);
    }

    /** `conf_get_string`: asks the sections from the right until one yields a value. */
    method ConfGetString(c: Conf, name: string) returns (r: Option<string>)
      modifies this
      ensures r == FirstValue(c, Items(opt, |opt|), name)
    {
      var end: nat := |opt|;
      while true
        invariant end <= |opt|
        invariant FirstValue(c, Items(opt, |opt|), name) == FirstValue(c, Items(opt, end), name)
        decreases end
      {
        var prev := PrevItem(end);
        if prev.None? {
          return None;
        }
        assert Items(opt, end) == [item] + Items(opt, prev.value);
        r := TryString(c, item, name);
        if r.Some? {
          return;
        }
        end := prev.value;
      }
    }
  }

  /** The items of repeated calls, in the order in which they come. */
  function Items(opt: string, end: nat): seq<string>
    requires end <= |opt|
  {
    if end == 0 then []
    else
      var b := ItemStart(opt, end);
      [Cut(opt[b..end])] + Items(opt, SkipSeparators(opt, b))
  }

  // ----- the names in a list, read from the left -----

  function RunLength(s: string): (k: nat)
    ensures k <= |s|
    ensures forall i :: 0 <= i < k ==> !IsSeparator(s[i])
    ensures k < |s| ==> IsSeparator(s[k])
  {
    if s == "" || IsSeparator(s[0]) then 0 else 1 + RunLength(s[1..])
  }

  function Words(s: string): seq<string>
    decreases |s|
  {
    if s == "" then []
    else if IsSeparator(s[0]) then Words(s[1..])
    else
      var k := RunLength(s);
      [s[..k]] + Words(s[k..])
  }

  function Backwards(w: seq<string>): seq<string> {
    if w == [] then [] else [Cut(w[|w| - 1])] + Backwards(w[..|w| - 1])
  }

  ghost predicate AllSeparators(s: string) {
    forall i :: 0 <= i < |s| ==> IsSeparator(s[i])
  }

  ghost predicate IsWord(s: string) {
    s != "" && forall i :: 0 <= i < |s| ==> !IsSeparator(s[i])
  }

  lemma {:induction false} RunLengthIs(s: string, k: nat)
    requires k <= |s| && (forall i :: 0 <= i < k ==> !IsSeparator(s[i])) && (k < |s| ==> IsSeparator(s[k]))
    ensures RunLength(s) == k
  {
    if s != "" && !IsSeparator(s[0]) { RunLengthIs(s[1..], k - 1); }
  }

  lemma {:induction false} WordsOfSeparators(s: string)
    requires AllSeparators(s)
    ensures Words(s) == []
  {
    if s != "" { WordsOfSeparators(s[1..]); }
  }

  /** Separators at the end do not matter. */
  lemma {:induction false} WordsTrim(a: string, s: string)
    requires AllSeparators(s)
    ensures Words(a + s) == Words(a)
    decreases |a|
  {
    if a == "" {
      assert a + s == s;
      WordsOfSeparators(s);
    } else if IsSeparator(a[0]) {
      assert (a + s)[1..] == a[1..] + s;
      WordsTrim(a[1..], s);
    } else {
      var k := RunLength(a);
      RunLengthIs(a + s, k);
      assert (a + s)[..k] == a[..k] && (a + s)[k..] == a[k..] + s;
      WordsTrim(a[k..], s);
    }
  }

  /** A word after a separator, or at the beginning, is the last word. */
  lemma {:induction false} WordsAppend(a: string, w: string)
    requires IsWord(w) && (a == "" || IsSeparator(a[|a| - 1]))
    ensures Words(a + w) == Words(a) + [w]
    decreases |a|
  {
    if a == "" {
      assert a + w == w;
      RunLengthIs(w, |w|);
      assert w[..|w|] == w && w[|w|..] == "";
    } else if IsSeparator(a[0]) {
      assert (a + w)[1..] == a[1..] + w;
      WordsAppend(a[1..], w);
    } else {
      var k := RunLength(a);
      assert k < |a|;
      RunLengthIs(a + w, k);
      assert (a + w)[..k] == a[..k] && (a + w)[k..] == a[k..] + w;
      WordsAppend(a[k..], w);
    }
  }

  lemma WordsSplit(opt: string, e: nat, b: nat, end: nat)
    requires e <= b < end <= |opt| && IsWord(opt[b..end]) && AllSeparators(opt[e..b])
    requires b > 0 ==> IsSeparator(opt[b - 1])
    ensures Words(opt[..end]) == Words(opt[..e]) + [opt[b..end]]
  {
    assert opt[..end] == opt[..b] + opt[b..end];
    WordsAppend(opt[..b], opt[b..end]);
    assert opt[..b] == opt[..e] + opt[e..b];
    WordsTrim(opt[..e], opt[e..b]);
  }

  lemma BackwardsAppend(w: seq<string>, x: string)
    ensures Backwards(w + [x]) == [Cut(x)] + Backwards(w)
  {
    assert (w + [x])[..|w|] == w;
  }

  /** From a position right after a name, the items are the names so far, last one first. */
  lemma {:induction false} ItemsAreWords(opt: string, end: nat)
    requires end <= |opt| && (end > 0 ==> !IsSeparator(opt[end - 1]))
    ensures Items(opt, end) == Backwards(Words(opt[..end]))
    decreases end
  {
    if end > 0 {
      var b := ItemStart(opt, end);
      var e := SkipSeparators(opt, b);
      ItemsAreWords(opt, e);
      WordsSplit(opt, e, b, end);
      BackwardsAppend(Words(opt[..e]), opt[b..end]);
    }
  }

  lemma ItemsAfterSeparator(opt: string, n: nat)
    requires 0 < n <= |opt| && IsSeparator(opt[n - 1])
    ensures Items(opt, n) == [""] + Backwards(Words(opt[..n]))
  {
    var e := SkipSeparators(opt, n);
    ItemsAreWords(opt, e);
    TrimTo(opt, e, n);
    assert ItemStart(opt, n) == n && opt[n..n] == "";
  }

  lemma TrimTo(opt: string, e: nat, n: nat)
    requires e <= n <= |opt| && forall i :: e <= i < n ==> IsSeparator(opt[i])
    ensures Words(opt[..n]) == Words(opt[..e])
  {
    assert opt[..n] == opt[..e] + opt[e..n];
    WordsTrim(opt[..e], opt[e..n]);
  }

  /** Repeated calls yield the names in reverse order, each cut to forty characters, and
      one extra empty item in front when the list ends in a separator. */
  lemma ItemsOfList(opt: string)
    ensures Items(opt, |opt|) ==
      (if opt != "" && IsSeparator(opt[|opt| - 1]) then [""] else []) + Backwards(Words(opt))
  {
    assert opt[..|opt|] == opt;
    if opt != "" && IsSeparator(opt[|opt| - 1]) {
      ItemsAfterSeparator(opt, |opt|);
    } else {
      ItemsAreWords(opt, |opt|);
    }
  }

  // ----- looking up a value -----

  /** Configuration values by section and name, and the environment. */
  datatype Conf = Conf(values: map<(string, string), string>, env: map<string, string>)

  /** The value a section itself gives to a name. */
  function Own(c: Conf, section: string, name: string): Option<string> {
    if (section, name) in c.values then Some(c.values[(section, name)])
    else if section == "ENV" && name in c.env then Some(c.env[name])
    else None
  }

  /** `NCONF_get_string`: the section first, then the default section. */
  function TryString(c: Conf, section: string, name: string): Option<string> {
    if Own(c, section, name).Some? then Own(c, section, name)
    else if ("default", name) in c.values then Some(c.values[("default", name)])
    else None
  }

  function FirstValue(c: Conf, items: seq<string>, name: string): Option<string> {
    if items == [] then None
    else if TryString(c, items[0], name).Some? then TryString(c, items[0], name)
    else FirstValue(c, items[1..], name)
  }

  /** The value of the rightmost listed section that defines the name itself. */
  function RightmostOwn(c: Conf, items: seq<string>, name: string): Option<string> {
    if items == [] then None
    else if Own(c, items[0], name).Some? then Own(c, items[0], name)
    else RightmostOwn(c, items[1..], name)
  }

  /** What the manual page describes: the rightmost section that defines the name, and
      the default section only when no listed section does. */
  function Documented(c: Conf, items: seq<string>, name: string): Option<string> {
    if RightmostOwn(c, items, name).Some? then RightmostOwn(c, items, name)
    else if items != [] && ("default", name) in c.values then Some(c.values[("default", name)])
    else None
  }

  lemma {:induction false} NoDefault(c: Conf, items: seq<string>, name: string)
    requires ("default", name) !in c.values
    ensures FirstValue(c, items, name) == RightmostOwn(c, items, name)
  {
    if items != [] { NoDefault(c, items[1..], name); }
  }

  /** The lookup does what is documented exactly when the default section does not define
      the name, or the last listed item does, or no listed section does, or the section
      that should decide says the same as the default section. Otherwise the default
      section hides every section but the last. */
  lemma LookupExact(c: Conf, items: seq<string>, name: string)
    ensures FirstValue(c, items, name) == Documented(c, items, name)
       <==> || ("default", name) !in c.values
            || items == []
            || Own(c, items[0], name).Some?
            || RightmostOwn(c, items, name).None?
            || RightmostOwn(c, items, name).value == c.values[("default", name)]
  {
    if ("default", name) !in c.values { NoDefault(c, items, name); }
  }

  /** A list where the documented value is not found: the first section defines the name,
      the second does not, and the default section does. */
  lemma DefaultHidesSection()
    ensures var c := Conf(map[("a", "n") := "1", ("default", "n") := "2"], map[]);
      FirstValue(c, Items("a,b", 3), "n") == Some("2") && Documented(c, Items("a,b", 3), "n") == Some("1")
  {
    var opt := "a,b";
    assert ItemStart(opt, 3) == 2 && SkipSeparators(opt, 2) == 1;
    assert ItemStart(opt, 1) == 0 && SkipSeparators(opt, 0) == 0;
    assert opt[2..3] == "b" && opt[0..1] == "a";
    assert Items(opt, 1) == ["a"] + Items(opt, 0);
    assert Items(opt, 3) == ["b"] + Items(opt, 1);
    assert Items(opt, 3) == ["b", "a"];
    assert ["b", "a"][1..] == ["a"];
  }

  // ----- what the lookup finds -----

  lemma SeparatorExact(c: char)
    ensures IsSeparator(c) <==> c in [',', ' ', '\t', '\n', '\U{b}', '\U{c}', '\r']
  {
  }

  /** The value an item yields: its own section's, for `ENV` otherwise the environment's, and
      otherwise that of the section `default`. */
  ghost predicate Yields(c: Conf, section: string, name: string, v: string) {
    if (section, name) in c.values then c.values[(section, name)] == v
    else if section == "ENV" && name in c.env then c.env[name] == v
    else ("default", name) in c.values && c.values[("default", name)] == v
  }

  lemma TryExact(c: Conf, section: string, name: string, v: string)
    ensures TryString(c, section, name) == Some(v) <==> Yields(c, section, name, v)
  {
  }

  ghost predicate FirstYield(c: Conf, items: seq<string>, name: string, v: string, k: nat) {
    && k < |items| && Yields(c, items[k], name, v)
    && forall j, w :: 0 <= j < k ==> !Yields(c, items[j], name, w)
  }

  /** The value found is that of the first item that yields one. */
  lemma {:induction false} FirstValueExact(c: Conf, items: seq<string>, name: string, v: string)
    ensures FirstValue(c, items, name) == Some(v) <==> exists k :: FirstYield(c, items, name, v, k)
    decreases |items|
  {
    if items != [] {
      FirstValueExact(c, items[1..], name, v);
      forall w: string ensures TryString(c, items[0], name) == Some(w) <==> Yields(c, items[0], name, w) {
        TryExact(c, items[0], name, w);
      }
      FirstYieldTail(c, items, name, v);
    }
  }

  lemma FirstYieldTail(c: Conf, items: seq<string>, name: string, v: string)
    requires items != []
    requires forall w :: TryString(c, items[0], name) == Some(w) <==> Yields(c, items[0], name, w)
    ensures (exists k :: FirstYield(c, items, name, v, k)) <==>
      if TryString(c, items[0], name).Some? then TryString(c, items[0], name) == Some(v)
      else exists k :: FirstYield(c, items[1..], name, v, k)
  {
    var first := TryString(c, items[0], name);
    if first.Some? {
      assert Yields(c, items[0], name, first.value);
      if first.value == v { assert FirstYield(c, items, name, v, 0); }
    } else {
      forall k: nat ensures FirstYield(c, items, name, v, k + 1) <==> FirstYield(c, items[1..], name, v, k) {
        YieldMoves(c, items, name, v, k);
      }
      if k: nat :| FirstYield(c, items[1..], name, v, k) {
        assert FirstYield(c, items, name, v, k + 1);
      }
      if k: nat :| FirstYield(c, items, name, v, k) {
        assert k > 0;
        YieldMoves(c, items, name, v, k - 1);
      }
    }
  }

  lemma YieldMoves(c: Conf, items: seq<string>, name: string, v: string, k: nat)
    requires items != [] && forall w :: !Yields(c, items[0], name, w)
    ensures FirstYield(c, items, name, v, k + 1) <==> FirstYield(c, items[1..], name, v, k)
  {
    var t := items[1..];
    assert forall j :: 0 <= j < |t| ==> t[j] == items[j + 1];
    if FirstYield(c, t, name, v, k) {
      forall j, w | 0 <= j < k + 1 ensures !Yields(c, items[j], name, w) {
        if j > 0 { assert items[j] == t[j - 1]; }
      }
    }
  }
}
