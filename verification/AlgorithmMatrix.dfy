/**
 The key-exchange and signature combinations of a benchmark run: names wanted or
 classic, resolved against what the build offers, combined without repetitions and
 filtered by the mode.
 */
module AlgorithmMatrix {
  import opened Wrappers

  datatype Category = Classic | Pqc | PqcHybrid

  datatype Combo = Combo(kem: string, signature: string, kemCategory: Category, sigCategory: Category)

  /** The configured tables, all by lower-case name. */
  datatype Tables = Tables(kemCategory: map<string, Category>, sigCategory: map<string, Category>,
                           kemLevel: map<string, int>, sigLevel: map<string, int>,
                           kemsOfMode: map<string, set<string>>, sigsOfMode: map<string, set<string>>)

  datatype Error = UnsupportedMode | Unclassified | NoLevel | NeedsBoth | NoSuchKem | NoSuchSig

  datatype Result<T> = Ok(value: T) | Err(error: Error)

  function Lower(s: string): string {
    seq(|s|, i requires 0 <= i < |s| => LowerChar(s[i]))
  }

  function Lowered(names: seq<string>): (r: seq<string>)
    ensures |r| == |names|
    ensures forall i :: 0 <= i < |r| ==> r[i] == Lower(names[i])
  {
    seq(|names|, i requires 0 <= i < |names| => Lower(names[i]))
  }

  lemma LowerEmpty(s: string)
    ensures Lower(s) == "" <==> s == ""
  {
  }

  /** Names have one lower-case form exactly when they differ at most in case. */
  lemma LowerExact(a: string, b: string)
    ensures Lower(a) == Lower(b) <==> |a| == |b| && forall i :: 0 <= i < |a| ==> SameLetter(a[i], b[i])
  {
    if Lower(a) == Lower(b) {
      assert |Lower(a)| == |a| && |Lower(b)| == |b|;
      forall i | 0 <= i < |a| ensures SameLetter(a[i], b[i]) { assert Lower(a)[i] == Lower(b)[i]; }
    }
  }

  // ----- resolving names -----

  /** The available name with this lower-case form; the last one when several differ only in case. */
  function Find(available: seq<string>, lower: string): (r: Option<string>)
    ensures r.Some? ==> r.value in available && Lower(r.value) == lower
    ensures r.None? ==> forall i :: 0 <= i < |available| ==> Lower(available[i]) != lower
  {
    if available == [] then None
    else if Lower(available[|available| - 1]) == lower then Some(available[|available| - 1])
    else Find(available[..|available| - 1], lower)
  }

  ghost predicate LastWith(available: seq<string>, lower: string, i: nat) {
    && i < |available| && Lower(available[i]) == lower
    && forall j :: i < j < |available| ==> Lower(available[j]) != lower
  }

  /** Of several names that differ only in case, the last one is found. */
  lemma {:induction false} FindIsLast(available: seq<string>, lower: string, i: nat)
    requires LastWith(available, lower, i)
    ensures Find(available, lower) == Some(available[i])
    decreases |available|
  {
    var n := |available| - 1;
    if i < n {
      assert Lower(available[n]) != lower;
      assert LastWith(available[..n], lower, i);
      FindIsLast(available[..n], lower, i);
    }
  }

  /** The wanted names that are available, in wanted order, each once. */
  function Resolved(wanted: seq<string>, available: seq<string>): (r: seq<string>) {
    if wanted == [] then []
    else
      var before := Resolved(wanted[..|wanted| - 1], available);
      var f := Find(available, Lower(wanted[|wanted| - 1]));
      if f.None? || f.value == "" || f.value in before then before else before + [f.value]
  }

  /** The build offers this name in some letter case. */
  predicate Offered(name: string, available: seq<string>) {
    name != "" && Lower(name) in Lowered(available)
  }

  lemma FindExact(available: seq<string>, name: string)
    ensures var f := Find(available, Lower(name)); f.Some? && f.value != "" <==> Offered(name, available)
  {
    var f := Find(available, Lower(name));
    LowerEmpty(name);
    if f.Some? {
      LowerEmpty(f.value);
      var i :| 0 <= i < |available| && available[i] == f.value;
      assert Lowered(available)[i] == Lower(name);
    }
  }

  /** Every wanted name is either resolved or, as often as it is wanted, reported missing. */
  method ResolveAvailable(wanted: seq<string>, available: seq<string>)
    returns (selected: seq<string>, missing: seq<string>)
    ensures selected == Resolved(wanted, available)
    ensures forall w :: multiset(missing)[w] == if Offered(w, available) then 0 else multiset(wanted)[w]
  {
    selected, missing := [], [];
    for i := 0 to |wanted|
      invariant selected == Resolved(wanted[..i], available)
      invariant forall w :: multiset(missing)[w] == if Offered(w, available) then 0 else multiset(wanted[..i])[w]
    {
      assert wanted[..i + 1][..i] == wanted[..i];
      assert wanted[..i + 1] == wanted[..i] + [wanted[i]];
      FindExact(available, wanted[i]);
      var resolved := Find(available, Lower(wanted[i]));
      if resolved.Some? && resolved.value != "" {
        if resolved.value !in selected {
          selected := selected + [resolved.value];
        }
      } else {
        missing := missing + [wanted[i]];
      }
    }
    assert wanted[..|wanted|] == wanted;
  }

  function ClassicOf(available: seq<string>, category: map<string, Category>): seq<string> {
    if available == [] then []
    else
      var n := available[|available| - 1];
      ClassicOf(available[..|available| - 1], category)
      + (if Lower(n) in category && category[Lower(n)] == Classic then [n] else [])
  }

  /** All names to combine: the wanted ones first, then the classic ones. */
  function Candidates(wanted: seq<string>, available: seq<string>, category: map<string, Category>): seq<string> {
    Resolved(wanted, available) + ClassicOf(available, category)
  }

  // ----- combining -----

  type Pair = (string, string)

  function KeyOf(p: Pair): Pair { (Lower(p.0), Lower(p.1)) }

  function Row(kem: string, sigs: seq<string>): seq<Pair> {
    if sigs == [] then [] else [(kem, sigs[0])] + Row(kem, sigs[1..])
  }

  function Product(kems: seq<string>, sigs: seq<string>): seq<Pair> {
    if kems == [] then [] else Row(kems[0], sigs) + Product(kems[1..], sigs)
  }

  function Keys(combos: seq<Combo>): (r: seq<Pair>)
    ensures |r| == |combos|
    ensures forall i :: 0 <= i < |r| ==> r[i] == KeyOf((combos[i].kem, combos[i].signature))
  {
    seq(|combos|, i requires 0 <= i < |combos| => KeyOf((combos[i].kem, combos[i].signature)))
  }

  predicate KnownKey(k: Pair, t: Tables) {
    k.0 in t.kemCategory && k.1 in t.sigCategory
  }

  predicate Classified(p: Pair, t: Tables) {
    KnownKey(KeyOf(p), t)
  }

  function ComboOf(p: Pair, t: Tables): Combo
    requires Classified(p, t)
  {
    Combo(p.0, p.1, t.kemCategory[KeyOf(p).0], t.sigCategory[KeyOf(p).1])
  }

  /** `add_combo`: a pair seen before in any letter case is ignored; None when a name is unknown. */
  function AddCombo(combos: seq<Combo>, p: Pair, t: Tables): Option<seq<Combo>> {
    if KeyOf(p) in Keys(combos) then Some(combos)
    else if !Classified(p, t) then None
    else Some(combos + [ComboOf(p, t)])
  }

  /** Adds the pairs in order to the combos already there. */
  function AddAll(combos: seq<Combo>, pairs: seq<Pair>, t: Tables): Option<seq<Combo>>
    decreases |pairs|
  {
    if pairs == [] then Some(combos)
    else
      match AddCombo(combos, pairs[0], t)
      case None => None
      case Some(more) => AddAll(more, pairs[1..], t)
  }

  function Build(pairs: seq<Pair>, t: Tables): Option<seq<Combo>> {
    AddAll([], pairs, t)
  }

  /** All combinations before the mode filter; None when a name is unknown. */
  function Built(groups: seq<string>, sigs: seq<string>, wantedKems: seq<string>, wantedSigs: seq<string>, t: Tables)
    : Option<seq<Combo>>
  {
    Build(Product(Candidates(wantedKems, groups, t.kemCategory), Candidates(wantedSigs, sigs, t.sigCategory)), t)
  }

  // ----- the mode filter -----

  /** What the mode allows, given lower-case names; None when a level is missing. */
  function Allows(mode: string, k: Pair, t: Tables): Option<bool>
    requires Supported(mode, t) && KnownKey(k, t)
  {
    if k.0 !in t.kemsOfMode[mode] || k.1 !in t.sigsOfMode[mode] then Some(false)
    else if mode == "pqc" && (t.kemCategory[k.0] == PqcHybrid || t.sigCategory[k.1] == PqcHybrid) then Some(false)
    else if mode == "pqc-level" then
      if t.kemCategory[k.0] != Pqc || t.sigCategory[k.1] != Pqc then Some(false)
      else if k.0 !in t.kemLevel || k.1 !in t.sigLevel then None
      else Some(t.kemLevel[k.0] == t.sigLevel[k.1])
    else Some(true)
  }

  /** The combos carry the categories of their names. */
  ghost predicate FromTables(combos: seq<Combo>, t: Tables) {
    forall i :: 0 <= i < |combos| ==>
      var p := (combos[i].kem, combos[i].signature); Classified(p, t) && combos[i] == ComboOf(p, t)
  }

  predicate Supported(mode: string, t: Tables) {
    mode in t.kemsOfMode && mode in t.sigsOfMode
  }

  function Filtered(combos: seq<Combo>, mode: string, t: Tables): Option<seq<Combo>>
    requires Supported(mode, t) && FromTables(combos, t)
  {
    if combos == [] then Some([])
    else
      var c := combos[|combos| - 1];
      match (Filtered(combos[..|combos| - 1], mode, t), Allows(mode, KeyOf((c.kem, c.signature)), t))
      case (Some(f), Some(yes)) => Some(if yes then f + [c] else f)
      case _ => None
  }

  // ----- the program -----

  /** One row; None when a name is unknown. */
  method AddRow(combos0: seq<Combo>, kem: string, sigs: seq<string>, t: Tables) returns (r: Option<seq<Combo>>)
    ensures r == AddAll(combos0, Row(kem, sigs), t)
  {
    var combos := combos0;
    assert sigs[0..] == sigs;
    for i := 0 to |sigs|
      invariant AddAll(combos0, Row(kem, sigs), t) == AddAll(combos, Row(kem, sigs[i..]), t)
    {
      var p := (kem, sigs[i]);
      assert sigs[i..][1..] == sigs[i + 1..];
      assert Row(kem, sigs[i..]) == [p] + Row(kem, sigs[i + 1..]);
      assert ([p] + Row(kem, sigs[i + 1..]))[1..] == Row(kem, sigs[i + 1..]);
      if KeyOf(p) in Keys(combos) {
        continue;
      }
      if !Classified(p, t) {
        return None;
      }
      combos := combos + [ComboOf(p, t)];
    }
    assert sigs[|sigs|..] == [];
    r := Some(combos);
  }

  lemma {:induction false} AddAllAppend(combos: seq<Combo>, a: seq<Pair>, b: seq<Pair>, t: Tables)
    ensures var m := AddAll(combos, a, t);
      AddAll(combos, a + b, t) == if m.None? then None else AddAll(m.value, b, t)
    decreases |a|
  {
    if a == [] {
      assert a + b == b;
    } else {
      assert (a + b)[1..] == a[1..] + b;
      if AddCombo(combos, a[0], t).Some? { AddAllAppend(AddCombo(combos, a[0], t).value, a[1..], b, t); }
    }
  }

  lemma {:induction false} RowAppend(kem: string, a: seq<string>, b: seq<string>)
    ensures Row(kem, a + b) == Row(kem, a) + Row(kem, b)
    decreases |a|
  {
    if a == [] {
      assert a + b == b;
    } else {
      assert (a + b)[1..] == a[1..] + b;
      RowAppend(kem, a[1..], b);
    }
  }

  /** All rows of some key exchanges: each with the selected and then with the classic signatures. */
  method AddRows(combos0: seq<Combo>, kems: seq<string>, selected: seq<string>, classic: seq<string>, t: Tables)
    returns (r: Option<seq<Combo>>)
    ensures r == AddAll(combos0, Product(kems, selected + classic), t)
  {
    r := Some(combos0);
    ghost var all := selected + classic;
    assert kems[0..] == kems;
    for i := 0 to |kems|
      invariant r.Some? && AddAll(combos0, Product(kems, all), t) == AddAll(r.value, Product(kems[i..], all), t)
    {
      assert kems[i..][1..] == kems[i + 1..];
      RowAppend(kems[i], selected, classic);
      AddAllAppend(r.value, Row(kems[i], all), Product(kems[i + 1..], all), t);
      AddAllAppend(r.value, Row(kems[i], selected), Row(kems[i], classic), t);
      r := AddRow(r.value, kems[i], selected, t);
      if r.None? {
        return;
      }
      r := AddRow(r.value, kems[i], classic, t);
      if r.None? {
        return;
      }
    }
    assert kems[|kems|..] == [];
  }

  lemma {:induction false} ProductAppend(a: seq<string>, b: seq<string>, sigs: seq<string>)
    ensures Product(a + b, sigs) == Product(a, sigs) + Product(b, sigs)
    decreases |a|
  {
    if a == [] {
      assert a + b == b;
    } else {
      assert (a + b)[1..] == a[1..] + b;
      ProductAppend(a[1..], b, sigs);
    }
  }

  method FilterByMode(combos: seq<Combo>, mode: string, t: Tables) returns (r: Result<seq<Combo>>)
    requires Supported(mode, t) && FromTables(combos, t)
    ensures r == match Filtered(combos, mode, t) { case None => Err(NoLevel) case Some(f) => Ok(f) }
  {
    var f: seq<Combo> := [];
    for i := 0 to |combos|
      invariant FromTables(combos[..i], t)
      invariant Filtered(combos[..i], mode, t) == Some(f)
    {
      assert combos[..i + 1][..i] == combos[..i] && FromTables(combos[..i + 1], t);
      var yes := Allows(mode, KeyOf((combos[i].kem, combos[i].signature)), t);
      if yes.None? {
        FilterStops(combos, i + 1, mode, t);
        return Err(NoLevel);
      }
      if yes.value {
        f := f + [combos[i]];
      }
    }
    assert combos[..|combos|] == combos;
    r := Ok(f);
  }

  lemma {:induction false} FilterStops(combos: seq<Combo>, k: nat, mode: string, t: Tables)
    requires k <= |combos| && Supported(mode, t) && FromTables(combos, t)
    requires FromTables(combos[..k], t) && Filtered(combos[..k], mode, t).None?
    ensures Filtered(combos, mode, t).None?
    decreases |combos|
  {
    if k == |combos| {
      assert combos[..k] == combos;
    } else {
      assert combos[..|combos| - 1][..k] == combos[..k];
      FilterStops(combos[..|combos| - 1], k, mode, t);
    }
  }

  /** The first name with this lower-case form. */
  function FirstOf(available: seq<string>, lower: string): (r: Option<string>)
    ensures r.Some? ==> r.value in available && Lower(r.value) == lower
    ensures r.None? <==> lower !in Lowered(available)
  {
    if available == [] then None
    else
      assert Lowered(available) == [Lower(available[0])] + Lowered(available[1..]);
      if Lower(available[0]) == lower then Some(available[0]) else FirstOf(available[1..], lower)
  }

  /** The name as given when the build offers it, else the first that differs in case only. */
  function Chosen(available: seq<string>, name: string): Option<string> {
    if name in available then Some(name) else FirstOf(available, Lower(name))
  }

  /** Mode "one": a single combination of the two names asked for. */
  method BuildOne(kem: Option<string>, sig: Option<string>, groups: seq<string>, sigs: seq<string>, t: Tables)
    returns (r: Result<seq<Combo>>)
    ensures r == One(kem, sig, groups, sigs, t)
  {
    if kem.None? || kem.value == "" || sig.None? || sig.value == "" {
      return Err(NeedsBoth);
    }
    var kemCandidate, sigCandidate := Chosen(groups, kem.value), Chosen(sigs, sig.value);
    if kemCandidate.None? {
      return Err(NoSuchKem);
    }
    if sigCandidate.None? {
      return Err(NoSuchSig);
    }
    var p := (kemCandidate.value, sigCandidate.value);
    var combos := AddCombo([], p, t);
    assert combos.Some? ==> [] + [ComboOf(p, t)] == [ComboOf(p, t)];
    r := if combos.None? then Err(Unclassified) else Ok(combos.value);
  }

  function One(kem: Option<string>, sig: Option<string>, groups: seq<string>, sigs: seq<string>, t: Tables)
    : Result<seq<Combo>>
  {
    if kem.None? || kem.value == "" || sig.None? || sig.value == "" then Err(NeedsBoth)
    else
      var a, b := Chosen(groups, kem.value), Chosen(sigs, sig.value);
      if a.None? then Err(NoSuchKem)
      else if b.None? then Err(NoSuchSig)
      else if !Classified((a.value, b.value), t) then Err(Unclassified)
      else Ok([ComboOf((a.value, b.value), t)])
  }

  /** Mode "one" succeeds exactly when both names are given, offered in some letter case and
      classified; the one combination has these names, spelled as given where that is offered. */
  lemma OneExact(kem: Option<string>, sig: Option<string>, groups: seq<string>, sigs: seq<string>, t: Tables)
    ensures var r := One(kem, sig, groups, sigs, t);
      && (r.Ok? <==>
            (kem.Some? && sig.Some? && Offered(kem.value, groups) && Offered(sig.value, sigs) &&
             KnownKey(KeyOf((kem.value, sig.value)), t)))
      && (r.Ok? ==>
            && |r.value| == 1 && FromTables(r.value, t) && Spelled(r.value, groups, sigs)
            && Keys(r.value) == [KeyOf((kem.value, sig.value))]
            && (kem.value in groups ==> r.value[0].kem == kem.value)
            && (sig.value in sigs ==> r.value[0].signature == sig.value))
  {
    if kem.Some? && sig.Some? {
      ChosenExact(groups, kem.value);
      ChosenExact(sigs, sig.value);
    }
  }

  lemma ChosenExact(available: seq<string>, name: string)
    ensures var c := Chosen(available, name);
      && (c.Some? <==> Lower(name) in Lowered(available))
      && (c.Some? ==> c.value in available && Lower(c.value) == Lower(name))
  {
    if name in available {
      var i :| 0 <= i < |available| && available[i] == name;
      assert Lowered(available)[i] == Lower(name);
    }
  }

  method BuildAlgorithmMatrix(mode: string, specificKem: Option<string>, specificSig: Option<string>,
                              groups: seq<string>, sigs: seq<string>,
                              wantedKems: seq<string>, wantedSigs: seq<string>, t: Tables)
    returns (r: Result<seq<Combo>>)
    ensures var built := Built(groups, sigs, wantedKems, wantedSigs, t);
      if mode == "one" then r == One(specificKem, specificSig, groups, sigs, t)
      else if !Supported(mode, t) then r == Err(UnsupportedMode)
      else if built.None? then r == Err(Unclassified)
      else FromTables(built.value, t)
           && r == match Filtered(built.value, mode, t) { case None => Err(NoLevel) case Some(f) => Ok(f) }
  {
    var selectedKems, _ := ResolveAvailable(wantedKems, groups);
    var selectedSigs, _ := ResolveAvailable(wantedSigs, sigs);
    var classicKems, classicSigs := ClassicOf(groups, t.kemCategory), ClassicOf(sigs, t.sigCategory);
    if mode == "one" {
      r := BuildOne(specificKem, specificSig, groups, sigs, t);
      return;
    }
    if !Supported(mode, t) {
      return Err(UnsupportedMode);
    }
    ghost var all := selectedSigs + classicSigs;
    ProductAppend(selectedKems, classicKems, all);
    AddAllAppend([], Product(selectedKems, all), Product(classicKems, all), t);
    var combos := AddRows([], selectedKems, selectedSigs, classicSigs, t);
    if combos.None? {
      return Err(Unclassified);
    }
    combos := AddRows(combos.value, classicKems, selectedSigs, classicSigs, t);
    if combos.None? {
      return Err(Unclassified);
    }
    BuildFromTables([], Product(selectedKems + classicKems, all), t);
    r := FilterByMode(combos.value, mode, t);
  }

  // ----- what the matrix holds -----

  lemma {:induction false} BuildFromTables(combos: seq<Combo>, pairs: seq<Pair>, t: Tables)
    requires FromTables(combos, t) && AddAll(combos, pairs, t).Some?
    ensures FromTables(AddAll(combos, pairs, t).value, t)
    decreases |pairs|
  {
    if pairs != [] { BuildFromTables(AddCombo(combos, pairs[0], t).value, pairs[1..], t); }
  }

  ghost predicate NoRepeats(k: seq<Pair>) {
    forall i, j :: 0 <= i < j < |k| ==> k[i] != k[j]
  }

  lemma KeysAppend(a: seq<Combo>, b: seq<Combo>)
    ensures Keys(a + b) == Keys(a) + Keys(b)
  {
  }

  function PairKeys(pairs: seq<Pair>): (r: seq<Pair>)
    ensures |r| == |pairs|
    ensures forall i :: 0 <= i < |r| ==> r[i] == KeyOf(pairs[i])
  {
    seq(|pairs|, i requires 0 <= i < |pairs| => KeyOf(pairs[i]))
  }

  ghost predicate AllKnown(keys: seq<Pair>, t: Tables) {
    forall i :: 0 <= i < |keys| ==> KnownKey(keys[i], t)
  }

  ghost predicate SameMembers(a: seq<Pair>, b: seq<Pair>) {
    forall x :: x in a <==> x in b
  }

  lemma AddComboKeys(combos: seq<Combo>, p: Pair, t: Tables)
    requires NoRepeats(Keys(combos)) && AddCombo(combos, p, t).Some?
    ensures var k := Keys(AddCombo(combos, p, t).value); NoRepeats(k) && SameMembers(k, Keys(combos) + [KeyOf(p)])
  {
    if KeyOf(p) !in Keys(combos) {
      KeysAppend(combos, [ComboOf(p, t)]);
      assert Keys([ComboOf(p, t)]) == [KeyOf(p)];
    }
  }

  /** Adding succeeds exactly when all names are classified. */
  lemma {:induction false} AddAllSucceeds(combos: seq<Combo>, pairs: seq<Pair>, t: Tables)
    requires FromTables(combos, t)
    ensures AddAll(combos, pairs, t).Some? <==> AllKnown(PairKeys(pairs), t)
    decreases |pairs|
  {
    if pairs != [] {
      var k := KeyOf(pairs[0]);
      assert PairKeys(pairs) == [k] + PairKeys(pairs[1..]);
      assert k in Keys(combos) ==> KnownKey(k, t);
      if AddCombo(combos, pairs[0], t).Some? { AddAllSucceeds(AddCombo(combos, pairs[0], t).value, pairs[1..], t); }
    }
  }

  /** The keys of what is built are those of the pairs, each once. */
  lemma {:induction false} AddAllKeys(combos: seq<Combo>, pairs: seq<Pair>, t: Tables)
    requires NoRepeats(Keys(combos)) && AddAll(combos, pairs, t).Some?
    ensures var k := Keys(AddAll(combos, pairs, t).value);
      NoRepeats(k) && SameMembers(k, Keys(combos) + PairKeys(pairs))
    decreases |pairs|
  {
    if pairs != [] {
      AddComboKeys(combos, pairs[0], t);
      AddAllKeys(AddCombo(combos, pairs[0], t).value, pairs[1..], t);
      assert PairKeys(pairs) == [KeyOf(pairs[0])] + PairKeys(pairs[1..]);
    }
  }

  lemma {:induction false} RowKeys(kem: string, sigs: seq<string>, x: Pair)
    ensures x in PairKeys(Row(kem, sigs)) <==> x.0 == Lower(kem) && x.1 in Lowered(sigs)
    decreases |sigs|
  {
    if sigs != [] {
      RowKeys(kem, sigs[1..], x);
      PairKeysAppend([(kem, sigs[0])], Row(kem, sigs[1..]));
      assert PairKeys([(kem, sigs[0])]) == [(Lower(kem), Lower(sigs[0]))];
      assert Lowered(sigs) == [Lower(sigs[0])] + Lowered(sigs[1..]);
    }
  }

  lemma PairKeysAppend(a: seq<Pair>, b: seq<Pair>)
    ensures PairKeys(a + b) == PairKeys(a) + PairKeys(b)
  {
  }

  /** The product combines every name with every other. */
  lemma {:induction false} ProductKeys(kems: seq<string>, sigs: seq<string>, x: Pair)
    ensures x in PairKeys(Product(kems, sigs)) <==> x.0 in Lowered(kems) && x.1 in Lowered(sigs)
    decreases |kems|
  {
    if kems != [] {
      ProductKeys(kems[1..], sigs, x);
      RowKeys(kems[0], sigs, x);
      PairKeysAppend(Row(kems[0], sigs), Product(kems[1..], sigs));
      assert Lowered(kems) == [Lower(kems[0])] + Lowered(kems[1..]);
    }
  }

  // ----- which names take part -----

  lemma {:induction false} ResolvedNames(wanted: seq<string>, available: seq<string>, x: string)
    ensures x in Lowered(Resolved(wanted, available)) <==> x != "" && x in Lowered(wanted) && x in Lowered(available)
    decreases |wanted|
  {
    if wanted != [] {
      var n := |wanted| - 1;
      var before := Resolved(wanted[..n], available);
      ResolvedNames(wanted[..n], available, x);
      assert Lowered(wanted) == Lowered(wanted[..n]) + [Lower(wanted[n])];
      var f := Find(available, Lower(wanted[n]));
      if f.Some? {
        LowerEmpty(f.value);
        assert Lowered(before + [f.value]) == Lowered(before) + [Lower(f.value)];
        var i :| 0 <= i < |available| && available[i] == f.value;
        assert Lowered(available)[i] == Lower(wanted[n]);
        if f.value in before {
          var j :| 0 <= j < |before| && before[j] == f.value;
          assert Lowered(before)[j] == Lower(f.value);
        }
      } else {
        assert Lower(wanted[n]) !in Lowered(available);
      }
    }
  }

  lemma {:induction false} ClassicNames(available: seq<string>, category: map<string, Category>, x: string)
    ensures x in Lowered(ClassicOf(available, category))
       <==> x in Lowered(available) && x in category && category[x] == Classic
    decreases |available|
  {
    if available != [] {
      var n := |available| - 1;
      var before := ClassicOf(available[..n], category);
      ClassicNames(available[..n], category, x);
      assert Lowered(available) == Lowered(available[..n]) + [Lower(available[n])];
      assert Lowered(before + [available[n]]) == Lowered(before) + [Lower(available[n])];
      assert before + [] == before;
    }
  }

  /** A name takes part when it is available and either wanted or classic, in any letter case. */
  predicate TakesPart(x: string, wanted: seq<string>, available: seq<string>, category: map<string, Category>) {
    x in Lowered(available) && ((x != "" && x in Lowered(wanted)) || (x in category && category[x] == Classic))
  }

  predicate PairTakesPart(x: Pair, groups: seq<string>, sigs: seq<string>,
                          wantedKems: seq<string>, wantedSigs: seq<string>, t: Tables)
  {
    TakesPart(x.0, wantedKems, groups, t.kemCategory) && TakesPart(x.1, wantedSigs, sigs, t.sigCategory)
  }

  lemma CandidateNames(wanted: seq<string>, available: seq<string>, category: map<string, Category>, x: string)
    ensures x in Lowered(Candidates(wanted, available, category)) <==> TakesPart(x, wanted, available, category)
  {
    var a, b := Resolved(wanted, available), ClassicOf(available, category);
    ResolvedNames(wanted, available, x);
    ClassicNames(available, category, x);
    assert Lowered(a + b) == Lowered(a) + Lowered(b);
  }

  // ----- the filter -----

  lemma NoRepeatsAppend(k: seq<Pair>, x: Pair)
    requires NoRepeats(k) && x !in k
    ensures NoRepeats(k + [x])
  {
  }

  lemma {:induction false} FilteredKeys(combos: seq<Combo>, mode: string, t: Tables)
    requires Supported(mode, t) && FromTables(combos, t) && NoRepeats(Keys(combos)) && Filtered(combos, mode, t).Some?
    ensures var k := Keys(Filtered(combos, mode, t).value);
      NoRepeats(k) && forall x :: x in k <==> x in Keys(combos) && KnownKey(x, t) && Allows(mode, x, t) == Some(true)
    decreases |combos|
  {
    if combos != [] {
      var n := |combos| - 1;
      var before, c := combos[..n], combos[n];
      var key := KeyOf((c.kem, c.signature));
      assert Keys(before) == Keys(combos)[..n];
      FilteredKeys(before, mode, t);
      var f := Filtered(before, mode, t).value;
      assert combos == before + [c] && Keys([c]) == [key];
      KeysAppend(before, [c]);
      KeysAppend(f, [c]);
      assert key !in Keys(before);
      NoRepeatsAppend(Keys(f), key);
    }
  }

  // ----- the spelling of the names -----

  ghost predicate Spelled(combos: seq<Combo>, groups: seq<string>, sigs: seq<string>) {
    forall i :: 0 <= i < |combos| ==> combos[i].kem in groups && combos[i].signature in sigs
  }

  lemma {:induction false} CandidatesAvailable(wanted: seq<string>, available: seq<string>)
    ensures forall i :: 0 <= i < |Resolved(wanted, available)| ==> Resolved(wanted, available)[i] in available
    decreases |wanted|
  {
    if wanted != [] { CandidatesAvailable(wanted[..|wanted| - 1], available); }
  }

  lemma {:induction false} ClassicAvailable(available: seq<string>, category: map<string, Category>)
    ensures forall i :: 0 <= i < |ClassicOf(available, category)| ==> ClassicOf(available, category)[i] in available
    decreases |available|
  {
    if available != [] {
      ClassicAvailable(available[..|available| - 1], category);
      assert available == available[..|available| - 1] + [available[|available| - 1]];
    }
  }

  ghost predicate From(pairs: seq<Pair>, groups: seq<string>, sigs: seq<string>) {
    forall i :: 0 <= i < |pairs| ==> pairs[i].0 in groups && pairs[i].1 in sigs
  }

  lemma {:induction false} RowFrom(kem: string, names: seq<string>, groups: seq<string>, sigs: seq<string>)
    requires kem in groups && forall i :: 0 <= i < |names| ==> names[i] in sigs
    ensures From(Row(kem, names), groups, sigs)
    decreases |names|
  {
    if names != [] { RowFrom(kem, names[1..], groups, sigs); }
  }

  lemma {:induction false} ProductFrom(kems: seq<string>, names: seq<string>, groups: seq<string>, sigs: seq<string>)
    requires forall i :: 0 <= i < |kems| ==> kems[i] in groups
    requires forall i :: 0 <= i < |names| ==> names[i] in sigs
    ensures From(Product(kems, names), groups, sigs)
    decreases |kems|
  {
    if kems != [] {
      RowFrom(kems[0], names, groups, sigs);
      ProductFrom(kems[1..], names, groups, sigs);
    }
  }

  lemma {:induction false} AddAllSpelled(combos: seq<Combo>, pairs: seq<Pair>, t: Tables,
                                         groups: seq<string>, sigs: seq<string>)
    requires Spelled(combos, groups, sigs) && From(pairs, groups, sigs) && AddAll(combos, pairs, t).Some?
    ensures Spelled(AddAll(combos, pairs, t).value, groups, sigs)
    decreases |pairs|
  {
    if pairs != [] { AddAllSpelled(AddCombo(combos, pairs[0], t).value, pairs[1..], t, groups, sigs); }
  }

  lemma {:induction false} FilteredSpelled(combos: seq<Combo>, mode: string, t: Tables,
                                           groups: seq<string>, sigs: seq<string>)
    requires Supported(mode, t) && FromTables(combos, t) && Filtered(combos, mode, t).Some?
    requires Spelled(combos, groups, sigs)
    ensures Spelled(Filtered(combos, mode, t).value, groups, sigs) && FromTables(Filtered(combos, mode, t).value, t)
    decreases |combos|
  {
    if combos != [] { FilteredSpelled(combos[..|combos| - 1], mode, t, groups, sigs); }
  }

  /** Every combination is spelled as the build offers it and carries the categories of its names. */
  lemma MatrixSpelling(mode: string, groups: seq<string>, sigs: seq<string>,
                       wantedKems: seq<string>, wantedSigs: seq<string>, t: Tables, combos: seq<Combo>, m: seq<Combo>)
    requires Supported(mode, t)
    requires Built(groups, sigs, wantedKems, wantedSigs, t) == Some(combos)
    requires FromTables(combos, t) && Filtered(combos, mode, t) == Some(m)
    ensures Spelled(m, groups, sigs) && FromTables(m, t)
  {
    CandidatesAvailable(wantedKems, groups);
    CandidatesAvailable(wantedSigs, sigs);
    ClassicAvailable(groups, t.kemCategory);
    ClassicAvailable(sigs, t.sigCategory);
    var kems, names := Candidates(wantedKems, groups, t.kemCategory), Candidates(wantedSigs, sigs, t.sigCategory);
    ProductFrom(kems, names, groups, sigs);
    AddAllSpelled([], Product(kems, names), t, groups, sigs);
    FilteredSpelled(combos, mode, t, groups, sigs);
  }

  lemma MatrixAllowed(mode: string, groups: seq<string>, sigs: seq<string>,
                    wantedKems: seq<string>, wantedSigs: seq<string>, t: Tables, combos: seq<Combo>, m: seq<Combo>)
    requires Supported(mode, t)
    requires Built(groups, sigs, wantedKems, wantedSigs, t) == Some(combos)
    requires FromTables(combos, t) && Filtered(combos, mode, t) == Some(m)
    ensures NoRepeats(Keys(m))
    ensures forall x :: x in Keys(m) <==>
      && PairTakesPart(x, groups, sigs, wantedKems, wantedSigs, t)
      && KnownKey(x, t) && Allows(mode, x, t) == Some(true)
  {
    MatrixKeys(groups, sigs, wantedKems, wantedSigs, t, combos, ("", ""));
    FilteredKeys(combos, mode, t);
    forall x: Pair ensures x in Keys(combos) <==> PairTakesPart(x, groups, sigs, wantedKems, wantedSigs, t) {
      MatrixKeys(groups, sigs, wantedKems, wantedSigs, t, combos, x);
    }
  }

  /** What a mode asks of two lower-case names: both are on its lists, "pqc" has no hybrids, and
      "pqc-level" has post-quantum names of one level only. */
  predicate Fits(mode: string, x: Pair, t: Tables)
    requires Supported(mode, t)
  {
    && KnownKey(x, t) && x.0 in t.kemsOfMode[mode] && x.1 in t.sigsOfMode[mode]
    && (mode == "pqc" ==> t.kemCategory[x.0] != PqcHybrid && t.sigCategory[x.1] != PqcHybrid)
    && (mode == "pqc-level" ==>
          && t.kemCategory[x.0] == Pqc && t.sigCategory[x.1] == Pqc
          && x.0 in t.kemLevel && x.1 in t.sigLevel && t.kemLevel[x.0] == t.sigLevel[x.1])
  }

  lemma AllowsExact(mode: string, x: Pair, t: Tables)
    requires Supported(mode, t)
    ensures KnownKey(x, t) && Allows(mode, x, t) == Some(true) <==> Fits(mode, x, t)
  {
  }

  /** The matrix: without repetitions in any letter case, exactly the pairs of names that
      take part and that the mode allows. */
  lemma MatrixExact(mode: string, groups: seq<string>, sigs: seq<string>,
                    wantedKems: seq<string>, wantedSigs: seq<string>, t: Tables, combos: seq<Combo>, m: seq<Combo>)
    requires Supported(mode, t)
    requires Built(groups, sigs, wantedKems, wantedSigs, t) == Some(combos)
    requires FromTables(combos, t) && Filtered(combos, mode, t) == Some(m)
    ensures NoRepeats(Keys(m))
    ensures forall x :: x in Keys(m) <==> PairTakesPart(x, groups, sigs, wantedKems, wantedSigs, t) && Fits(mode, x, t)
  {
    MatrixAllowed(mode, groups, sigs, wantedKems, wantedSigs, t, combos, m);
    forall x: Pair ensures KnownKey(x, t) && Allows(mode, x, t) == Some(true) <==> Fits(mode, x, t) {
      AllowsExact(mode, x, t);
    }
  }

  /** Lower-case names of two post-quantum algorithms in a mode's lists, one without a level. */
  predicate LacksLevel(x: Pair, mode: string, t: Tables)
    requires Supported(mode, t)
  {
    && KnownKey(x, t) && x.0 in t.kemsOfMode[mode] && x.1 in t.sigsOfMode[mode]
    && t.kemCategory[x.0] == Pqc && t.sigCategory[x.1] == Pqc
    && (x.0 !in t.kemLevel || x.1 !in t.sigLevel)
  }

  lemma {:induction false} FilteredFails(combos: seq<Combo>, mode: string, t: Tables)
    requires Supported(mode, t) && FromTables(combos, t)
    ensures Filtered(combos, mode, t).None? <==>
      mode == "pqc-level" && exists x :: x in Keys(combos) && LacksLevel(x, mode, t)
    decreases |combos|
  {
    if combos != [] {
      var n := |combos| - 1;
      var before, c := combos[..n], combos[n];
      FilteredFails(before, mode, t);
      assert combos == before + [c];
      KeysAppend(before, [c]);
      var k := KeyOf((c.kem, c.signature));
      assert Keys([c]) == [k];
      assert k in Keys(combos);
    }
  }

  /** The filter fails exactly in mode "pqc-level", and exactly when two post-quantum names take
      part that the mode lists and one of them has no level. */
  lemma MatrixLevels(mode: string, groups: seq<string>, sigs: seq<string>,
                     wantedKems: seq<string>, wantedSigs: seq<string>, t: Tables, combos: seq<Combo>)
    requires Supported(mode, t)
    requires Built(groups, sigs, wantedKems, wantedSigs, t) == Some(combos)
    requires FromTables(combos, t)
    ensures Filtered(combos, mode, t).None? <==>
      mode == "pqc-level" && exists x ::
        PairTakesPart(x, groups, sigs, wantedKems, wantedSigs, t) && LacksLevel(x, mode, t)
  {
    FilteredFails(combos, mode, t);
    forall x: Pair ensures x in Keys(combos) <==> PairTakesPart(x, groups, sigs, wantedKems, wantedSigs, t) {
      MatrixKeys(groups, sigs, wantedKems, wantedSigs, t, combos, x);
    }
  }

  lemma MatrixKeys(groups: seq<string>, sigs: seq<string>, wantedKems: seq<string>, wantedSigs: seq<string>,
                   t: Tables, combos: seq<Combo>, x: Pair)
    requires Built(groups, sigs, wantedKems, wantedSigs, t) == Some(combos)
    ensures x in Keys(combos) <==> PairTakesPart(x, groups, sigs, wantedKems, wantedSigs, t)
    ensures NoRepeats(Keys(combos))
  {
    var kems, names := Candidates(wantedKems, groups, t.kemCategory), Candidates(wantedSigs, sigs, t.sigCategory);
    AddAllKeys([], Product(kems, names), t);
    assert Keys([]) + PairKeys(Product(kems, names)) == PairKeys(Product(kems, names));
    ProductKeys(kems, names, x);
    CandidateNames(wantedKems, groups, t.kemCategory, x.0);
    CandidateNames(wantedSigs, sigs, t.sigCategory, x.1);
  }

  /** The matrix can be built exactly when every pair of names that take part is classified. */
  lemma MatrixBuilds(groups: seq<string>, sigs: seq<string>,
                     wantedKems: seq<string>, wantedSigs: seq<string>, t: Tables)
    ensures Built(groups, sigs, wantedKems, wantedSigs, t).Some?
       <==> forall x :: PairTakesPart(x, groups, sigs, wantedKems, wantedSigs, t) ==> KnownKey(x, t)
  {
    var kems, names := Candidates(wantedKems, groups, t.kemCategory), Candidates(wantedSigs, sigs, t.sigCategory);
    var keys := PairKeys(Product(kems, names));
    AddAllSucceeds([], Product(kems, names), t);
    forall x: Pair ensures x in keys <==> PairTakesPart(x, groups, sigs, wantedKems, wantedSigs, t) {
      ProductKeys(kems, names, x);
      CandidateNames(wantedKems, groups, t.kemCategory, x.0);
      CandidateNames(wantedSigs, sigs, t.sigCategory, x.1);
    }
    assert AllKnown(keys, t) <==> forall x: Pair :: x in keys ==> KnownKey(x, t) by {
      if AllKnown(keys, t) {
        forall x: Pair | x in keys ensures KnownKey(x, t) { var i :| 0 <= i < |keys| && keys[i] == x; }
      }
    }
  }

  // ----- the order of the combinations -----

  /** The position of the first occurrence, or the length. */
  function FirstAt<T(==)>(s: seq<T>, x: T): (k: nat)
    ensures k <= |s| && (k < |s| <==> x in s)
    ensures k < |s| ==> s[k] == x
  {
    if s == [] || s[0] == x then 0
    else
      assert s == [s[0]] + s[1..];
      1 + FirstAt(s[1..], x)
  }

  lemma {:induction false} FirstAtAppend<T>(a: seq<T>, b: seq<T>, x: T)
    ensures FirstAt(a + b, x) == if x in a then FirstAt(a, x) else |a| + FirstAt(b, x)
    decreases |a|
  {
    if a == [] {
      assert a + b == b;
    } else {
      assert (a + b)[1..] == a[1..] + b && a == [a[0]] + a[1..];
      FirstAtAppend(a[1..], b, x);
    }
  }

  /** The keys come in the order of their first occurrence in `all`. */
  ghost predicate ByFirst(keys: seq<Pair>, all: seq<Pair>) {
    && (forall i :: 0 <= i < |keys| ==> keys[i] in all)
    && (forall i, j :: 0 <= i < j < |keys| ==> FirstAt(all, keys[i]) < FirstAt(all, keys[j]))
  }

  lemma ByFirstGrows(keys: seq<Pair>, all: seq<Pair>, x: Pair)
    requires ByFirst(keys, all)
    ensures ByFirst(keys, all + [x])
    ensures x !in all ==> ByFirst(keys + [x], all + [x])
  {
    forall i | 0 <= i < |keys| ensures FirstAt(all + [x], keys[i]) == FirstAt(all, keys[i]) {
      FirstAtAppend(all, [x], keys[i]);
    }
    FirstAtAppend(all, [x], x);
  }

  lemma AddComboInOrder(combos: seq<Combo>, done: seq<Pair>, p: Pair, t: Tables)
    requires ByFirst(Keys(combos), done) && SameMembers(Keys(combos), done) && AddCombo(combos, p, t).Some?
    ensures var k, all := Keys(AddCombo(combos, p, t).value), done + [KeyOf(p)];
      ByFirst(k, all) && SameMembers(k, all)
  {
    ByFirstGrows(Keys(combos), done, KeyOf(p));
    if KeyOf(p) !in Keys(combos) {
      KeysAppend(combos, [ComboOf(p, t)]);
      assert Keys([ComboOf(p, t)]) == [KeyOf(p)];
    }
  }

  lemma {:induction false} AddAllInOrder(combos: seq<Combo>, done: seq<Pair>, pairs: seq<Pair>, t: Tables)
    requires ByFirst(Keys(combos), done) && SameMembers(Keys(combos), done) && AddAll(combos, pairs, t).Some?
    ensures ByFirst(Keys(AddAll(combos, pairs, t).value), done + PairKeys(pairs))
    decreases |pairs|
  {
    if pairs == [] {
      assert done + PairKeys(pairs) == done;
    } else {
      AddComboInOrder(combos, done, pairs[0], t);
      AddAllInOrder(AddCombo(combos, pairs[0], t).value, done + [KeyOf(pairs[0])], pairs[1..], t);
      ShiftDone(done, pairs);
    }
  }

  lemma ShiftDone(done: seq<Pair>, pairs: seq<Pair>)
    requires pairs != []
    ensures (done + [KeyOf(pairs[0])]) + PairKeys(pairs[1..]) == done + PairKeys(pairs)
  {
    assert PairKeys(pairs) == [KeyOf(pairs[0])] + PairKeys(pairs[1..]);
  }

  /** First by the position of the key exchange, then by that of the signature. */
  predicate Precedes(kems: seq<string>, sigs: seq<string>, x: Pair, y: Pair) {
    || FirstAt(kems, x.0) < FirstAt(kems, y.0)
    || (x.0 == y.0 && FirstAt(sigs, x.1) < FirstAt(sigs, y.1))
  }

  lemma {:induction false} RowFirst(kem: string, sigs: seq<string>, b: string)
    requires b in Lowered(sigs)
    ensures FirstAt(PairKeys(Row(kem, sigs)), (Lower(kem), b)) == FirstAt(Lowered(sigs), b)
    decreases |sigs|
  {
    var row := PairKeys(Row(kem, sigs));
    assert Lowered(sigs) == [Lower(sigs[0])] + Lowered(sigs[1..]);
    assert row == [(Lower(kem), Lower(sigs[0]))] + PairKeys(Row(kem, sigs[1..]));
    if Lower(sigs[0]) != b { RowFirst(kem, sigs[1..], b); }
  }

  lemma RowPart(kem: string, sigs: seq<string>, row: seq<Pair>, x: Pair)
    requires row == PairKeys(Row(kem, sigs))
    ensures |row| == |sigs|
    ensures x in row <==> x.0 == Lower(kem) && x.1 in Lowered(sigs)
    ensures x in row ==> FirstAt(row, x) == FirstAt(Lowered(sigs), x.1)
  {
    RowSize(kem, sigs);
    RowKeys(kem, sigs, x);
    if x in row { RowFirst(kem, sigs, x.1); }
  }

  lemma FirstInParts(all: seq<Pair>, row: seq<Pair>, others: seq<Pair>, x: Pair)
    requires all == row + others && x in all
    ensures x in row ==> FirstAt(all, x) == FirstAt(row, x)
    ensures x !in row ==> x in others && FirstAt(all, x) == |row| + FirstAt(others, x)
  {
    FirstAtAppend(row, others, x);
  }

  lemma ProductParts(kems: seq<string>, sigs: seq<string>)
    requires kems != []
    ensures PairKeys(Product(kems, sigs)) == PairKeys(Row(kems[0], sigs)) + PairKeys(Product(kems[1..], sigs))
  {
    PairKeysAppend(Row(kems[0], sigs), Product(kems[1..], sigs));
  }

  lemma ProductFirst(kems: seq<string>, sigs: seq<string>, all: seq<Pair>, others: seq<Pair>, x: Pair)
    requires kems != [] && x in all
    requires all == PairKeys(Product(kems, sigs)) && others == PairKeys(Product(kems[1..], sigs))
    ensures x.0 != Lower(kems[0]) ==> x in others && FirstAt(all, x) == |sigs| + FirstAt(others, x)
    ensures x.0 == Lower(kems[0]) ==> FirstAt(all, x) == FirstAt(Lowered(sigs), x.1) < |sigs|
  {
    var row := PairKeys(Row(kems[0], sigs));
    ProductParts(kems, sigs);
    ProductKeys(kems, sigs, x);
    RowPart(kems[0], sigs, row, x);
    FirstInParts(all, row, others, x);
  }

  lemma {:induction false} RowSize(kem: string, sigs: seq<string>)
    ensures |Row(kem, sigs)| == |sigs|
    decreases |sigs|
  {
    if sigs != [] { RowSize(kem, sigs[1..]); }
  }

  lemma LoweredHead(kems: seq<string>, x: string)
    requires kems != []
    ensures FirstAt(Lowered(kems), x) == if x == Lower(kems[0]) then 0 else 1 + FirstAt(Lowered(kems[1..]), x)
  {
    assert Lowered(kems)[1..] == Lowered(kems[1..]);
  }

  lemma {:induction false} ProductOrder(kems: seq<string>, sigs: seq<string>, x: Pair, y: Pair)
    requires x in PairKeys(Product(kems, sigs)) && y in PairKeys(Product(kems, sigs))
    requires FirstAt(PairKeys(Product(kems, sigs)), x) < FirstAt(PairKeys(Product(kems, sigs)), y)
    ensures Precedes(Lowered(kems), Lowered(sigs), x, y)
    decreases |kems|
  {
    var all, others := PairKeys(Product(kems, sigs)), PairKeys(Product(kems[1..], sigs));
    ProductFirst(kems, sigs, all, others, x);
    ProductFirst(kems, sigs, all, others, y);
    LoweredHead(kems, x.0);
    LoweredHead(kems, y.0);
    if x.0 != Lower(kems[0]) && y.0 != Lower(kems[0]) {
      ProductOrder(kems[1..], sigs, x, y);
    }
  }

  /** Wanted names come first, as they are wanted, then the others as the build lists them. */
  function Rank(x: string, wanted: seq<string>, available: seq<string>): nat {
    if x != "" && x in Lowered(wanted) then FirstAt(Lowered(wanted), x)
    else |wanted| + FirstAt(Lowered(available), x)
  }

  lemma {:induction false} ResolvedOrder(wanted: seq<string>, available: seq<string>, x: string, y: string)
    requires var r := Lowered(Resolved(wanted, available)); x in r && y in r && FirstAt(r, x) < FirstAt(r, y)
    ensures FirstAt(Lowered(wanted), x) < FirstAt(Lowered(wanted), y)
    decreases |wanted|
  {
    var n := |wanted| - 1;
    var before, last := Resolved(wanted[..n], available), Lower(wanted[n]);
    var r := Resolved(wanted, available);
    assert Lowered(wanted) == Lowered(wanted[..n]) + [last];
    FirstAtAppend(Lowered(wanted[..n]), [last], x);
    FirstAtAppend(Lowered(wanted[..n]), [last], y);
    ResolvedNames(wanted[..n], available, x);
    ResolvedNames(wanted[..n], available, y);
    if r != before {
      var f := Find(available, last).value;
      assert Lowered(r) == Lowered(before) + [last];
      FirstAtAppend(Lowered(before), [last], x);
      FirstAtAppend(Lowered(before), [last], y);
    }
    if y in Lowered(before) { ResolvedOrder(wanted[..n], available, x, y); }
  }

  lemma {:induction false} ClassicOrder(available: seq<string>, category: map<string, Category>, x: string, y: string)
    requires var r := Lowered(ClassicOf(available, category)); x in r && y in r && FirstAt(r, x) < FirstAt(r, y)
    ensures FirstAt(Lowered(available), x) < FirstAt(Lowered(available), y)
    decreases |available|
  {
    var n := |available| - 1;
    var before, last := ClassicOf(available[..n], category), Lower(available[n]);
    var r := ClassicOf(available, category);
    assert Lowered(available) == Lowered(available[..n]) + [last];
    FirstAtAppend(Lowered(available[..n]), [last], x);
    FirstAtAppend(Lowered(available[..n]), [last], y);
    ClassicNames(available[..n], category, x);
    ClassicNames(available[..n], category, y);
    ClassicNames(available, category, x);
    ClassicNames(available, category, y);
    if last in category && category[last] == Classic {
      assert r == before + [available[n]];
      assert Lowered(r) == Lowered(before) + [last];
      FirstAtAppend(Lowered(before), [last], x);
      FirstAtAppend(Lowered(before), [last], y);
    } else {
      assert r == before + [] == before;
    }
    if y in Lowered(before) { ClassicOrder(available[..n], category, x, y); }
  }

  lemma CandidateOrder(wanted: seq<string>, available: seq<string>, category: map<string, Category>,
                       x: string, y: string)
    requires var c := Lowered(Candidates(wanted, available, category));
      x in c && y in c && FirstAt(c, x) < FirstAt(c, y)
    ensures Rank(x, wanted, available) < Rank(y, wanted, available)
  {
    var a, b := Lowered(Resolved(wanted, available)), Lowered(ClassicOf(available, category));
    LoweredCandidates(wanted, available, category);
    FirstAtAppend(a, b, x);
    FirstAtAppend(a, b, y);
    ResolvedNames(wanted, available, x);
    ResolvedNames(wanted, available, y);
    ClassicNames(available, category, x);
    ClassicNames(available, category, y);
    if y in a {
      ResolvedOrder(wanted, available, x, y);
    } else if x !in a {
      ClassicOrder(available, category, x, y);
    }
  }

  lemma LoweredCandidates(wanted: seq<string>, available: seq<string>, category: map<string, Category>)
    ensures Lowered(Candidates(wanted, available, category))
         == Lowered(Resolved(wanted, available)) + Lowered(ClassicOf(available, category))
  {
  }

  /** One combination comes before another: by rank of the key exchange, then of the signature. */
  predicate ComesBefore(x: Pair, y: Pair, groups: seq<string>, sigs: seq<string>,
                        wantedKems: seq<string>, wantedSigs: seq<string>)
  {
    || Rank(x.0, wantedKems, groups) < Rank(y.0, wantedKems, groups)
    || (x.0 == y.0 && Rank(x.1, wantedSigs, sigs) < Rank(y.1, wantedSigs, sigs))
  }

  ghost predicate InRankOrder(keys: seq<Pair>, groups: seq<string>, sigs: seq<string>,
                              wantedKems: seq<string>, wantedSigs: seq<string>)
  {
    forall i, j :: 0 <= i < j < |keys| ==> ComesBefore(keys[i], keys[j], groups, sigs, wantedKems, wantedSigs)
  }

  lemma PairInOrder(groups: seq<string>, sigs: seq<string>, wantedKems: seq<string>, wantedSigs: seq<string>,
                    t: Tables, x: Pair, y: Pair)
    requires var kems, names := Lowered(Candidates(wantedKems, groups, t.kemCategory)),
                                Lowered(Candidates(wantedSigs, sigs, t.sigCategory));
      x.0 in kems && y.0 in kems && x.1 in names && y.1 in names && Precedes(kems, names, x, y)
    ensures ComesBefore(x, y, groups, sigs, wantedKems, wantedSigs)
  {
    if x.0 != y.0 {
      CandidateOrder(wantedKems, groups, t.kemCategory, x.0, y.0);
    } else {
      CandidateOrder(wantedSigs, sigs, t.sigCategory, x.1, y.1);
    }
  }

  lemma ProductInOrder(kems: seq<string>, names: seq<string>, x: Pair, y: Pair)
    requires var all := PairKeys(Product(kems, names)); x in all && y in all && FirstAt(all, x) < FirstAt(all, y)
    ensures Precedes(Lowered(kems), Lowered(names), x, y)
    ensures x.0 in Lowered(kems) && y.0 in Lowered(kems) && x.1 in Lowered(names) && y.1 in Lowered(names)
  {
    ProductOrder(kems, names, x, y);
    ProductKeys(kems, names, x);
    ProductKeys(kems, names, y);
  }

  lemma BuiltByFirst(pairs: seq<Pair>, t: Tables)
    requires Build(pairs, t).Some?
    ensures ByFirst(Keys(Build(pairs, t).value), PairKeys(pairs))
  {
    AddAllInOrder([], [], pairs, t);
    assert [] + PairKeys(pairs) == PairKeys(pairs);
  }

  lemma BuiltInOrder(groups: seq<string>, sigs: seq<string>, wantedKems: seq<string>, wantedSigs: seq<string>,
                     t: Tables, combos: seq<Combo>)
    requires Built(groups, sigs, wantedKems, wantedSigs, t) == Some(combos)
    ensures InRankOrder(Keys(combos), groups, sigs, wantedKems, wantedSigs)
  {
    var kems, names := Candidates(wantedKems, groups, t.kemCategory), Candidates(wantedSigs, sigs, t.sigCategory);
    BuiltByFirst(Product(kems, names), t);
    var k := Keys(combos);
    forall i, j | 0 <= i < j < |k| ensures ComesBefore(k[i], k[j], groups, sigs, wantedKems, wantedSigs) {
      ProductInOrder(kems, names, k[i], k[j]);
      PairInOrder(groups, sigs, wantedKems, wantedSigs, t, k[i], k[j]);
    }
  }

  lemma {:induction false} FilteredFrom(combos: seq<Combo>, mode: string, t: Tables)
    requires Supported(mode, t) && FromTables(combos, t) && Filtered(combos, mode, t).Some?
    ensures var f := Filtered(combos, mode, t).value; forall i :: 0 <= i < |f| ==> f[i] in combos
    decreases |combos|
  {
    if combos != [] { FilteredFrom(combos[..|combos| - 1], mode, t); }
  }

  lemma BeforeLast(combos: seq<Combo>, e: Combo, groups: seq<string>, sigs: seq<string>,
                   wantedKems: seq<string>, wantedSigs: seq<string>)
    requires combos != [] && e in combos[..|combos| - 1]
    requires InRankOrder(Keys(combos), groups, sigs, wantedKems, wantedSigs)
    ensures ComesBefore(KeyOf((e.kem, e.signature)), Keys(combos)[|combos| - 1], groups, sigs, wantedKems, wantedSigs)
  {
    var j :| 0 <= j < |combos| - 1 && combos[j] == e;
    assert Keys(combos)[j] == KeyOf((e.kem, e.signature));
  }

  lemma FirstOnesInOrder(combos: seq<Combo>, groups: seq<string>, sigs: seq<string>,
                         wantedKems: seq<string>, wantedSigs: seq<string>)
    requires combos != [] && InRankOrder(Keys(combos), groups, sigs, wantedKems, wantedSigs)
    ensures InRankOrder(Keys(combos[..|combos| - 1]), groups, sigs, wantedKems, wantedSigs)
  {
    assert Keys(combos[..|combos| - 1]) == Keys(combos)[..|combos| - 1];
  }

  lemma {:induction false} FilteredInOrder(combos: seq<Combo>, mode: string, t: Tables, groups: seq<string>,
                                           sigs: seq<string>, wantedKems: seq<string>, wantedSigs: seq<string>)
    requires Supported(mode, t) && FromTables(combos, t) && Filtered(combos, mode, t).Some?
    requires InRankOrder(Keys(combos), groups, sigs, wantedKems, wantedSigs)
    ensures InRankOrder(Keys(Filtered(combos, mode, t).value), groups, sigs, wantedKems, wantedSigs)
    decreases |combos|
  {
    if combos != [] {
      var n := |combos| - 1;
      FirstOnesInOrder(combos, groups, sigs, wantedKems, wantedSigs);
      FilteredInOrder(combos[..n], mode, t, groups, sigs, wantedKems, wantedSigs);
      var f := Filtered(combos[..n], mode, t).value;
      FilteredFrom(combos[..n], mode, t);
      forall i | 0 <= i < |f|
        ensures ComesBefore(Keys(f)[i], Keys(combos)[n], groups, sigs, wantedKems, wantedSigs)
      {
        BeforeLast(combos, f[i], groups, sigs, wantedKems, wantedSigs);
      }
      LastInOrder(Keys(f), Keys(combos)[n], groups, sigs, wantedKems, wantedSigs);
      KeysAppend(f, [combos[n]]);
      assert Keys([combos[n]]) == [Keys(combos)[n]];
    }
  }

  lemma LastInOrder(keys: seq<Pair>, x: Pair, groups: seq<string>, sigs: seq<string>, wantedKems: seq<string>,
                    wantedSigs: seq<string>)
    requires InRankOrder(keys, groups, sigs, wantedKems, wantedSigs)
    requires forall i :: 0 <= i < |keys| ==> ComesBefore(keys[i], x, groups, sigs, wantedKems, wantedSigs)
    ensures InRankOrder(keys + [x], groups, sigs, wantedKems, wantedSigs)
  {
  }

  /** The combinations come in the order of the loops: wanted key exchanges first, then the classic
      ones, and for each the signatures in the same way. */
  lemma MatrixOrder(mode: string, groups: seq<string>, sigs: seq<string>,
                    wantedKems: seq<string>, wantedSigs: seq<string>, t: Tables, combos: seq<Combo>, m: seq<Combo>)
    requires Supported(mode, t)
    requires Built(groups, sigs, wantedKems, wantedSigs, t) == Some(combos)
    requires FromTables(combos, t) && Filtered(combos, mode, t) == Some(m)
    ensures InRankOrder(Keys(m), groups, sigs, wantedKems, wantedSigs)
  {
    BuiltInOrder(groups, sigs, wantedKems, wantedSigs, t, combos);
    FilteredInOrder(combos, mode, t, groups, sigs, wantedKems, wantedSigs);
  }
}
