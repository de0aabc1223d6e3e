/**
 The `-signer`, `-inkey` and `-keyopt` options of `cms`: pairing signers with keys while
 the options are read in any order, and finding each signer's parameters when signing.
 */
module CmsSigners {
  import opened Wrappers

  datatype Opt = Signer(file: string) | Inkey(file: string) | Keyopt(arg: string)

  /** A node of the parameter list: the signer it is for, and its parameters. */
  datatype KeyParam = KeyParam(idx: int, params: seq<string>)

  /** The option variables: the pending signer and key, the two stacks, the parameter list. */
  datatype State = State(signerfile: Option<string>, keyfile: Option<string>,
                         sksigners: seq<string>, skkeys: seq<string>, params: seq<KeyParam>)

  // ----- the pairing, by slots -----

  /** One signer to be: its certificate, its key, its parameters, as far as they are given. */
  datatype Slot = Slot(signer: Option<string>, key: Option<string>, opts: seq<string>)

  /** The finished slots and the one that is still open, once there is any. */
  datatype Slots = NoSlot | Slots(closed: seq<Slot>, last: Slot)

  function All(s: Slots): seq<Slot> {
    if s.NoSlot? then [] else s.closed + [s.last]
  }

  /** A second certificate or a second key opens a new slot; a key without a certificate cannot be left behind. */
  function AddOption(s: Slots, o: Opt): Option<Slots> {
    match o
    case Signer(f) =>
      if s.NoSlot? then Some(Slots([], Slot(Some(f), None, [])))
      else if s.last.signer.Some? then Some(Slots(s.closed + [s.last], Slot(Some(f), None, [])))
      else Some(s.(last := s.last.(signer := Some(f))))
    case Inkey(f) =>
      if s.NoSlot? then Some(Slots([], Slot(None, Some(f), [])))
      else if s.last.key.None? then Some(s.(last := s.last.(key := Some(f))))
      else if s.last.signer.None? then None
      else Some(Slots(s.closed + [s.last], Slot(None, Some(f), [])))
    case Keyopt(a) =>
      if s.NoSlot? then None
      else Some(s.(last := s.last.(opts := s.last.opts + [a])))
  }

  function ReadOptions(opts: seq<Opt>): Option<Slots> {
    if opts == [] then Some(NoSlot)
    else
      match ReadOptions(opts[..|opts| - 1])
      case None => None
      case Some(s) => AddOption(s, opts[|opts| - 1])
  }

  /** The accepted option sequences: no illegal option, at least one signer, and the last key has one. */
  predicate Accepted(opts: seq<Opt>) {
    ReadOptions(opts).Some? && ReadOptions(opts).value.Slots? && ReadOptions(opts).value.last.signer.Some?
  }

  // ----- the program -----

  class SignerOptions {
    var signerfile: Option<string>
    var keyfile: Option<string>
    var sksigners: seq<string>
    var skkeys: seq<string>
    var params: seq<KeyParam>

    constructor ()
      ensures View() == State(None, None, [], [], [])
    {
      signerfile, keyfile, sksigners, skkeys, params := None, None, [], [], [];
    }

    function View(): State
      reads this
    {
      State(signerfile, keyfile, sksigners, skkeys, params)
    }

    /** One option; false on an error. */
    method Handle(o: Opt) returns (ok: bool)
      modifies this
      ensures var s := old(Step(View(), o)); ok == s.Some? && (ok ==> View() == s.value)
    {
      match o {
        case Signer(f) =>
          if signerfile.Some? {
            sksigners := sksigners + [signerfile.value];
            if keyfile.None? {
              keyfile := signerfile;
            }
            skkeys := skkeys + [keyfile.value];
            keyfile := None;
          }
          signerfile := Some(f);
        case Inkey(f) =>
          if keyfile.Some? {
            if signerfile.None? {
              return false;
            }
            sksigners := sksigners + [signerfile.value];
            signerfile := None;
            skkeys := skkeys + [keyfile.value];
          }
          keyfile := Some(f);
        case Keyopt(a) =>
          var keyidx := -1;
          if keyfile.Some? || signerfile.Some? {
            keyidx := keyidx + 1;
          }
          keyidx := keyidx + |skkeys|;
          if keyidx < 0 {
            return false;
          }
          ghost var before := params;
          if params == [] || params[|params| - 1].idx != keyidx {
            params := params + [KeyParam(keyidx, [])];
            assert params[..|params| - 1] == before && [] + [a] == [a];
          }
          var p := params[|params| - 1];
          params := params[..|params| - 1] + [p.(params := p.params + [a])];
      }
      ok := true;
    }

    /** The option loop. */
    method HandleOptions(opts: seq<Opt>) returns (ok: bool)
      requires View() == State(None, None, [], [], [])
      modifies this
      ensures ok <==> ReadOptions(opts).Some?
      ensures ok ==> Represents(View(), ReadOptions(opts).value)
    {
      for i := 0 to |opts|
        invariant ReadOptions(opts[..i]).Some?
        invariant Represents(View(), ReadOptions(opts[..i]).value)
      {
        assert opts[..i + 1][..i] == opts[..i];
        StepRepresents(View(), ReadOptions(opts[..i]).value, opts[i]);
        ok := Handle(opts[i]);
        if !ok {
          StaysRefused(opts, i + 1);
          return;
        }
      }
      assert opts[..|opts|] == opts;
      ok := true;
    }

    /** The final signer, appended after the loop. */
    method AppendFinal(ghost s: Slots) returns (ok: bool)
      requires Represents(View(), s)
      modifies this
      ensures ok <==> s.Slots? && s.last.signer.Some?
      ensures ok ==> sksigners == SignersOf(All(s)) && skkeys == KeysOf(All(s)) && params == ParamsOf(All(s))
      ensures ok ==> |sksigners| == |skkeys| == |All(s)|
    {
      if keyfile.Some? && signerfile.None? {
        return false;
      }
      assert s.NoSlot? <==> signerfile.None?;
      if signerfile.Some? {
        CloseLast(s);
        sksigners := sksigners + [signerfile.value];
        if keyfile.None? {
          keyfile := signerfile;
        }
        skkeys := skkeys + [keyfile.value];
        assert sksigners == SignersOf(All(s)) && skkeys == KeysOf(All(s));
      }
      if sksigners == [] {
        return false;
      }
      signerfile, keyfile := None, None;
      ok := true;
    }

    /** All options and then the final signer. */
    method HandleAll(opts: seq<Opt>) returns (ok: bool)
      requires View() == State(None, None, [], [], [])
      modifies this
      ensures ok <==> Accepted(opts)
      ensures ok ==> var slots := All(ReadOptions(opts).value);
        && sksigners == SignersOf(slots)
        && skkeys == KeysOf(slots)
        && |sksigners| == |skkeys| == |slots|
        && forall i :: 0 <= i < |slots| ==> Lookup(params, i) == slots[i].opts
    {
      ok := HandleOptions(opts);
      if !ok {
        return;
      }
      ok := AppendFinal(ReadOptions(opts).value);
      LookupParams(All(ReadOptions(opts).value));
    }

    /** The parameters of the i-th signer, as the signing loop finds them. */
    method FindParams(i: int) returns (p: seq<string>)
      ensures p == Lookup(params, i)
    {
      var k := 0;
      while k < |params|
        invariant 0 <= k <= |params|
        invariant Lookup(params, i) == Lookup(params[k..], i)
      {
        assert params[k..][0] == params[k] && params[k..][1..] == params[k + 1..];
        if params[k].idx == i {
          return params[k].params;
        }
        k := k + 1;
      }
      assert params[k..] == [];
      p := [];
    }
  }

  /** The effect of one option on the variables. */
  function Step(s: State, o: Opt): Option<State> {
    match o
    case Signer(f) =>
      if s.signerfile.None? then Some(s.(signerfile := Some(f)))
      else Some(State(Some(f), None, s.sksigners + [s.signerfile.value],
                      s.skkeys + [if s.keyfile.Some? then s.keyfile.value else s.signerfile.value], s.params))
    case Inkey(f) =>
      if s.keyfile.None? then Some(s.(keyfile := Some(f)))
      else if s.signerfile.None? then None
      else Some(State(None, Some(f), s.sksigners + [s.signerfile.value], s.skkeys + [s.keyfile.value], s.params))
    case Keyopt(a) =>
      var keyidx := (if s.keyfile.Some? || s.signerfile.Some? then 0 else -1) + |s.skkeys|;
      if keyidx < 0 then None else Some(s.(params := AddParam(s.params, keyidx, a)))
  }

  /** A parameter joins the last node if that is for the same signer. */
  function AddParam(params: seq<KeyParam>, idx: int, a: string): seq<KeyParam> {
    if params == [] || params[|params| - 1].idx != idx then params + [KeyParam(idx, [a])]
    else
      var p := params[|params| - 1];
      params[..|params| - 1] + [p.(params := p.params + [a])]
  }

  /** The first node for the signer. */
  function Lookup(params: seq<KeyParam>, i: int): seq<string> {
    if params == [] then []
    else if params[0].idx == i then params[0].params
    else Lookup(params[1..], i)
  }

  // ----- the variables represent the slots -----

  function SignersOf(slots: seq<Slot>): seq<string> {
    if slots == [] then [] else
      var x := slots[|slots| - 1];
      SignersOf(slots[..|slots| - 1]) + (if x.signer.Some? then [x.signer.value] else [])
  }

  /** The key of each slot, or its certificate file when no key was given. */
  function KeysOf(slots: seq<Slot>): seq<string> {
    if slots == [] then [] else
      var x := slots[|slots| - 1];
      var key := if x.key.Some? then x.key else x.signer;
      KeysOf(slots[..|slots| - 1]) + (if key.Some? then [key.value] else [])
  }

  /** A node for every slot with parameters, in order. */
  function ParamsOf(slots: seq<Slot>): seq<KeyParam> {
    if slots == [] then [] else WithNode(ParamsOf(slots[..|slots| - 1]), |slots| - 1, slots[|slots| - 1].opts)
  }

  function WithNode(p: seq<KeyParam>, idx: int, opts: seq<string>): seq<KeyParam> {
    if opts == [] then p else p + [KeyParam(idx, opts)]
  }

  ghost predicate Closed(slots: seq<Slot>) {
    forall i :: 0 <= i < |slots| ==> slots[i].signer.Some?
  }

  /** The finished slots are on the stacks, the open one is pending. */
  ghost predicate Represents(st: State, s: Slots) {
    match s
    case NoSlot => st == State(None, None, [], [], [])
    case Slots(closed, last) =>
      && Closed(closed) && st.sksigners == SignersOf(closed) && st.skkeys == KeysOf(closed)
      && st.signerfile == last.signer && st.keyfile == last.key && (last.signer.Some? || last.key.Some?)
      && st.params == WithNode(ParamsOf(closed), |closed|, last.opts)
  }

  /** What a finished slot adds to the stacks and to the parameter list. */
  lemma AppendSlot(slots: seq<Slot>, x: Slot)
    ensures SignersOf(slots + [x]) == SignersOf(slots) + (if x.signer.Some? then [x.signer.value] else [])
    ensures KeysOf(slots + [x]) == KeysOf(slots)
      + (if x.key.Some? then [x.key.value] else if x.signer.Some? then [x.signer.value] else [])
    ensures ParamsOf(slots + [x]) == WithNode(ParamsOf(slots), |slots|, x.opts)
  {
    assert (slots + [x])[..|slots|] == slots;
  }

  lemma {:induction false} ClosedLengths(slots: seq<Slot>)
    requires Closed(slots)
    ensures |SignersOf(slots)| == |slots| == |KeysOf(slots)|
    decreases |slots|
  {
    if slots != [] { ClosedLengths(slots[..|slots| - 1]); }
  }

  lemma {:induction false} ParamsBelow(slots: seq<Slot>)
    ensures forall i :: 0 <= i < |ParamsOf(slots)| ==> ParamsOf(slots)[i].idx < |slots|
    decreases |slots|
  {
    if slots != [] { ParamsBelow(slots[..|slots| - 1]); }
  }

  /** A parameter joins the node of the open slot, which is last because its index is the largest. */
  lemma AddParamToNode(p: seq<KeyParam>, idx: int, opts: seq<string>, a: string)
    requires forall i :: 0 <= i < |p| ==> p[i].idx < idx
    ensures AddParam(WithNode(p, idx, opts), idx, a) == WithNode(p, idx, opts + [a])
  {
    if opts != [] {
      var q := p + [KeyParam(idx, opts)];
      assert q[..|q| - 1] == p;
    } else {
      assert opts + [a] == [a];
    }
  }

  /** One option keeps the representation, and both sides refuse the same options. */
  lemma StepRepresents(st: State, s: Slots, o: Opt)
    requires Represents(st, s)
    ensures Step(st, o).Some? <==> AddOption(s, o).Some?
    ensures Step(st, o).Some? ==> Represents(Step(st, o).value, AddOption(s, o).value)
  {
    if s.Slots? {
      AppendSlot(s.closed, s.last);
      ClosedLengths(s.closed);
      ParamsBelow(s.closed);
      if o.Keyopt? { AddParamToNode(ParamsOf(s.closed), |s.closed|, s.last.opts, o.arg); }
    }
  }

  lemma {:induction false} StaysRefused(opts: seq<Opt>, k: nat)
    requires k <= |opts| && ReadOptions(opts[..k]).None?
    ensures ReadOptions(opts).None?
    decreases |opts| - k
  {
    if k < |opts| {
      assert opts[..k + 1][..k] == opts[..k];
      StaysRefused(opts, k + 1);
    } else {
      assert opts[..k] == opts;
    }
  }

  lemma CloseLast(s: Slots)
    requires s.Slots? && Closed(s.closed) && s.last.signer.Some?
    ensures var key := if s.last.key.Some? then s.last.key.value else s.last.signer.value;
      && SignersOf(All(s)) == SignersOf(s.closed) + [s.last.signer.value]
      && KeysOf(All(s)) == KeysOf(s.closed) + [key]
      && ParamsOf(All(s)) == WithNode(ParamsOf(s.closed), |s.closed|, s.last.opts)
      && |SignersOf(All(s))| == |KeysOf(All(s))| == |All(s)|
  {
    AppendSlot(s.closed, s.last);
    ClosedLengths(s.closed);
  }

  lemma {:induction false} LookupAppend(p: seq<KeyParam>, n: KeyParam, i: int)
    requires forall k :: 0 <= k < |p| ==> p[k].idx < n.idx
    ensures Lookup(p + [n], i) == if i == n.idx then n.params else Lookup(p, i)
    decreases |p|
  {
    if p != [] {
      assert (p + [n])[1..] == p[1..] + [n];
      LookupAppend(p[1..], n, i);
    } else {
      assert p + [n] == [n];
    }
  }

  lemma {:induction false} LookupBeyond(p: seq<KeyParam>, i: int)
    requires forall k :: 0 <= k < |p| ==> p[k].idx < i
    ensures Lookup(p, i) == []
    decreases |p|
  {
    if p != [] { LookupBeyond(p[1..], i); }
  }

  /** Node indices strictly increase, so the first node found for a signer holds exactly its parameters. */
  lemma {:induction false} LookupParams(slots: seq<Slot>)
    ensures forall i :: 0 <= i < |slots| ==> Lookup(ParamsOf(slots), i) == slots[i].opts
    decreases |slots|
  {
    if slots != [] {
      var before, n := slots[..|slots| - 1], |slots| - 1;
      LookupParams(before);
      ParamsBelow(before);
      forall i | 0 <= i < |slots| ensures Lookup(ParamsOf(slots), i) == slots[i].opts {
        if i < n { assert before[i] == slots[i]; } else { LookupBeyond(ParamsOf(before), n); }
        if slots[n].opts != [] { LookupAppend(ParamsOf(before), KeyParam(n, slots[n].opts), i); }
      }
    }
  }

  // ----- nothing is lost, nothing is reordered -----

  function GivenSigners(opts: seq<Opt>): seq<string> {
    if opts == [] then [] else
      var o := opts[|opts| - 1];
      GivenSigners(opts[..|opts| - 1]) + (if o.Signer? then [o.file] else [])
  }

  function GivenKeys(opts: seq<Opt>): seq<string> {
    if opts == [] then [] else
      var o := opts[|opts| - 1];
      GivenKeys(opts[..|opts| - 1]) + (if o.Inkey? then [o.file] else [])
  }

  function GivenOpts(opts: seq<Opt>): seq<string> {
    if opts == [] then [] else
      var o := opts[|opts| - 1];
      GivenOpts(opts[..|opts| - 1]) + (if o.Keyopt? then [o.arg] else [])
  }

  /** The keys that were given, slot by slot. */
  function SlotKeys(slots: seq<Slot>): seq<string> {
    if slots == [] then [] else
      var k := slots[|slots| - 1].key;
      SlotKeys(slots[..|slots| - 1]) + (if k.Some? then [k.value] else [])
  }

  function SlotOpts(slots: seq<Slot>): seq<string> {
    if slots == [] then [] else SlotOpts(slots[..|slots| - 1]) + slots[|slots| - 1].opts
  }

  lemma AppendGiven(slots: seq<Slot>, x: Slot)
    ensures SlotKeys(slots + [x]) == SlotKeys(slots) + (if x.key.Some? then [x.key.value] else [])
    ensures SlotOpts(slots + [x]) == SlotOpts(slots) + x.opts
  {
    assert (slots + [x])[..|slots|] == slots;
  }

  /** What one option adds to the slots, wherever it goes. */
  lemma OptionIsKept(s: Slots, o: Opt)
    requires AddOption(s, o).Some?
    ensures var n := All(AddOption(s, o).value);
      && SignersOf(n) == SignersOf(All(s)) + (if o.Signer? then [o.file] else [])
      && SlotKeys(n) == SlotKeys(All(s)) + (if o.Inkey? then [o.file] else [])
      && SlotOpts(n) == SlotOpts(All(s)) + (if o.Keyopt? then [o.arg] else [])
  {
    var n := AddOption(s, o).value;
    if s.Slots? {
      AppendSlot(s.closed, s.last);
      AppendGiven(s.closed, s.last);
    }
    AppendSlot(n.closed, n.last);
    AppendGiven(n.closed, n.last);
  }

  /** Whatever the order of the options, the slots hold all certificates, all keys and all
      parameters, each in the order given. */
  lemma {:induction false} NothingIsLost(opts: seq<Opt>)
    requires ReadOptions(opts).Some?
    ensures var s := All(ReadOptions(opts).value);
      SignersOf(s) == GivenSigners(opts) && SlotKeys(s) == GivenKeys(opts) && SlotOpts(s) == GivenOpts(opts)
    decreases |opts|
  {
    if opts != [] {
      NothingIsLost(opts[..|opts| - 1]);
      OptionIsKept(ReadOptions(opts[..|opts| - 1]).value, opts[|opts| - 1]);
    }
  }

  /** The stacks of finished slots: one key for each signer, and a signer without a key paired with its own file. */
  lemma {:induction false} StacksPairUp(slots: seq<Slot>)
    requires Closed(slots)
    ensures |SignersOf(slots)| == |KeysOf(slots)| == |slots|
    ensures forall i :: 0 <= i < |slots| ==>
      && SignersOf(slots)[i] == slots[i].signer.value
      && KeysOf(slots)[i] == if slots[i].key.Some? then slots[i].key.value else slots[i].signer.value
    decreases |slots|
  {
    if slots != [] { StacksPairUp(slots[..|slots| - 1]); }
  }

  /** A later option leaves the parameters already in the slots in place. */
  lemma AddKeepsParams(s: Slots, o: Opt, i: nat)
    requires i < |All(s)| && AddOption(s, o).Some?
    ensures var n := All(AddOption(s, o).value); |All(s)| <= |n| && All(s)[i].opts <= n[i].opts
  {
  }

  /** A parameter goes to the slot that is open at that moment, and later options do not move it. */
  lemma {:induction false} ParamStaysInSlot(opts: seq<Opt>, k: nat)
    requires k < |opts| && opts[k].Keyopt? && ReadOptions(opts).Some?
    ensures ReadOptions(opts[..k]).Some? && ReadOptions(opts[..k]).value.Slots?
    ensures var before, after := ReadOptions(opts[..k]).value, All(ReadOptions(opts).value);
      |before.closed| < |after| && before.last.opts + [opts[k].arg] <= after[|before.closed|].opts
    decreases |opts|
  {
    var shorter := opts[..|opts| - 1];
    if k < |shorter| {
      assert shorter[..k] == opts[..k];
      ParamStaysInSlot(shorter, k);
      AddKeepsParams(ReadOptions(shorter).value, opts[|opts| - 1], |ReadOptions(opts[..k]).value.closed|);
    } else {
      assert shorter == opts[..k];
    }
  }

  // ----- where certificates and keys go -----

  /** A later option leaves the certificate and the key already in a slot in place. */
  lemma AddKeepsFiles(s: Slots, o: Opt, i: nat)
    requires i < |All(s)| && AddOption(s, o).Some?
    ensures var n := All(AddOption(s, o).value);
      && i < |n|
      && (All(s)[i].signer.Some? ==> n[i].signer == All(s)[i].signer)
      && (All(s)[i].key.Some? ==> n[i].key == All(s)[i].key)
  {
  }

  /** What is in a slot at some point is there in the end. */
  lemma {:induction false} FilesStay(opts: seq<Opt>, k: nat, i: nat)
    requires k <= |opts| && ReadOptions(opts).Some?
    ensures ReadOptions(opts[..k]).Some?
    ensures var a, b := All(ReadOptions(opts[..k]).value), All(ReadOptions(opts).value);
      i < |a| ==>
        && i < |b|
        && (a[i].signer.Some? ==> b[i].signer == a[i].signer) && (a[i].key.Some? ==> b[i].key == a[i].key)
    decreases |opts|
  {
    if k == |opts| {
      assert opts[..k] == opts;
    } else {
      var shorter := opts[..|opts| - 1];
      assert shorter[..k] == opts[..k];
      FilesStay(shorter, k, i);
      if i < |All(ReadOptions(opts[..k]).value)| { AddKeepsFiles(ReadOptions(shorter).value, opts[|opts| - 1], i); }
    }
  }

  /** The slot with this certificate and this key, as far as they are given. */
  ghost predicate Holds(slots: seq<Slot>, i: nat, signer: Option<string>, key: Option<string>) {
    i < |slots| && (signer.Some? ==> slots[i].signer == signer) && (key.Some? ==> slots[i].key == key)
  }

  lemma HoldsStays(opts: seq<Opt>, k: nat, i: nat, signer: Option<string>, key: Option<string>)
    requires k <= |opts| && ReadOptions(opts).Some? && ReadOptions(opts[..k]).Some?
    requires Holds(All(ReadOptions(opts[..k]).value), i, signer, key)
    ensures Holds(All(ReadOptions(opts).value), i, signer, key)
  {
    FilesStay(opts, k, i);
  }

  /** A key goes to the certificate that waits for one when it is given; without such, it starts the
      next signer. */
  lemma KeyGoesToWaiting(opts: seq<Opt>, k: nat)
    requires k < |opts| && opts[k].Inkey? && ReadOptions(opts).Some?
    ensures ReadOptions(opts[..k]).Some?
    ensures var before, after := ReadOptions(opts[..k]).value, All(ReadOptions(opts).value);
      var file := Some(opts[k].file);
      if before.NoSlot? then Holds(after, 0, None, file)
      else if before.last.key.None? then Holds(after, |before.closed|, before.last.signer, file)
      else before.last.signer.Some? && Holds(after, |before.closed| + 1, None, file)
  {
    assert opts[..k + 1][..k] == opts[..k];
    FilesStay(opts, k, 0);
    FilesStay(opts, k + 1, 0);
    var before, file := ReadOptions(opts[..k]).value, Some(opts[k].file);
    var i := if before.NoSlot? then 0 else if before.last.key.None? then |before.closed| else |before.closed| + 1;
    var signer := if before.Slots? && before.last.key.None? then before.last.signer else None;
    HoldsStays(opts, k + 1, i, signer, file);
  }

  /** A certificate goes to the key that waits for one; without such, it starts the next signer. */
  lemma SignerGoesToWaiting(opts: seq<Opt>, k: nat)
    requires k < |opts| && opts[k].Signer? && ReadOptions(opts).Some?
    ensures ReadOptions(opts[..k]).Some?
    ensures var before, after := ReadOptions(opts[..k]).value, All(ReadOptions(opts).value);
      var file := Some(opts[k].file);
      if before.NoSlot? then Holds(after, 0, file, None)
      else if before.last.signer.None? then Holds(after, |before.closed|, file, before.last.key)
      else Holds(after, |before.closed| + 1, file, None)
  {
    assert opts[..k + 1][..k] == opts[..k];
    FilesStay(opts, k, 0);
    FilesStay(opts, k + 1, 0);
    var before, file := ReadOptions(opts[..k]).value, Some(opts[k].file);
    var i := if before.NoSlot? then 0 else if before.last.signer.None? then |before.closed| else |before.closed| + 1;
    var key := if before.Slots? && before.last.signer.None? then before.last.key else None;
    HoldsStays(opts, k + 1, i, file, key);
  }

  lemma {:induction false} ClosedHaveSigners(opts: seq<Opt>)
    requires ReadOptions(opts).Some? && ReadOptions(opts).value.Slots?
    ensures Closed(ReadOptions(opts).value.closed)
    decreases |opts|
  {
    var before := opts[..|opts| - 1];
    if ReadOptions(before).value.Slots? { ClosedHaveSigners(before); }
  }

  /** Options are accepted exactly when they can all be read, name a signer at all, and leave no
      signer without a certificate. */
  lemma AcceptedExact(opts: seq<Opt>)
    ensures Accepted(opts) <==>
      (ReadOptions(opts).Some? && All(ReadOptions(opts).value) != [] &&
       forall i :: 0 <= i < |All(ReadOptions(opts).value)| ==> All(ReadOptions(opts).value)[i].signer.Some?)
  {
    if ReadOptions(opts).Some? && ReadOptions(opts).value.Slots? {
      ClosedHaveSigners(opts);
      var s := ReadOptions(opts).value;
      assert All(s)[|s.closed|] == s.last;
    }
  }
}
