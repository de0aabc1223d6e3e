/**
 The subject of a new certificate: the policy loops of `do_body`, which copy the
 wanted fields of the request in policy order, and the removal of e-mail
 addresses, which must not disturb the grouping of the fields that stay.
 */
module CaPolicy {
  import opened Wrappers

  datatype Asn1String = Asn1String(tag: int, data: string)

  /** One field of a distinguished name; fields with equal `rdn` form one RDN. */
  datatype Entry = Entry(nid: int, value: Asn1String, rdn: int)

  type Name = seq<Entry>

  datatype PolicyField = PolicyField(name: string, value: string)

  /** The lookup of a field name (`OBJ_txt2nid`). */
  type NidTable = string -> Option<int>

  // ----- X509_NAME -----

  /** The first position after `last` that holds the field (`X509_NAME_get_index_by_OBJ`), or -1. */
  function IndexByNid(n: Name, nid: int, last: int): (r: int)
    requires last >= -1
    ensures r == -1 || last < r < |n|
    ensures r >= 0 ==> n[r].nid == nid
    ensures forall i :: last < i < (if r == -1 then |n| else r) ==> n[i].nid != nid
    decreases |n| - last
  {
    if last + 1 >= |n| then -1
    else if n[last + 1].nid == nid then last + 1
    else IndexByNid(n, nid, last + 1)
  }

  /** Appending starts a new RDN (`X509_NAME_add_entry` with location -1 and set 0). */
  function AddEntry(n: Name, e: Entry): Name {
    n + [e.(rdn := if n == [] then 0 else n[|n| - 1].rdn + 1)]
  }

  function RemoveAt(n: Name, loc: nat): Name
    requires loc < |n|
  {
    n[..loc] + n[loc + 1..]
  }

  /** `X509_NAME_delete_entry`: later RDNs move down when theirs disappears. */
  function Delete(n: Name, loc: nat): (r: Name)
    requires loc < |n|
    ensures |r| == |n| - 1
  {
    var rest := RemoveAt(n, loc);
    if loc == |rest| then rest
    else
      var prev := if loc != 0 then rest[loc - 1].rdn else n[loc].rdn - 1;
      if prev + 1 < rest[loc].rdn then rest[..loc] + Lowered(rest[loc..]) else rest
  }

  function Lowered(n: Name): (r: Name)
    ensures |r| == |n|
    ensures forall i :: 0 <= i < |n| ==> r[i] == n[i].(rdn := n[i].rdn - 1)
  {
    seq(|n|, i requires 0 <= i < |n| => n[i].(rdn := n[i].rdn - 1))
  }

  // ----- the policy, declaratively -----

  datatype PolicyError = UnknownObject | InvalidType | NotSupplied | MandatoryMissing | NotInCa | DiffersFromCa

  /** The values of one field, in the order of the name. */
  function Values(n: Name, nid: int): seq<Asn1String> {
    if n == [] then []
    else Values(n[..|n| - 1], nid) + (if n[|n| - 1].nid == nid then [n[|n| - 1].value] else [])
  }

  predicate AllIn(a: seq<Asn1String>, b: seq<Asn1String>) {
    forall i :: 0 <= i < |a| ==> a[i] in b
  }

  /** What is wrong with one policy field for this request and CA, if anything. */
  function Verdict(f: PolicyField, req: Name, ca: Name, nids: NidTable): Option<PolicyError> {
    if nids(f.name).None? then Some(UnknownObject)
    else
      var given, issuer := Values(req, nids(f.name).value), Values(ca, nids(f.name).value);
      if f.value == "optional" then None
      else if f.value == "supplied" then (if given == [] then Some(NotSupplied) else None)
      else if f.value == "match" then
        if given == [] then Some(MandatoryMissing)
        else if issuer == [] then Some(NotInCa)
        else if !AllIn(given, issuer) then Some(DiffersFromCa)
        else None
      else Some(InvalidType)
  }

  /** A field and its value, without the grouping. */
  datatype Pair = Pair(nid: int, value: Asn1String)

  function Pairs(n: Name): (p: seq<Pair>)
    ensures |p| == |n|
    ensures forall i :: 0 <= i < |n| ==> p[i] == Pair(n[i].nid, n[i].value)
  {
    seq(|n|, i requires 0 <= i < |n| => Pair(n[i].nid, n[i].value))
  }

  function Tagged(nid: int, values: seq<Asn1String>): (p: seq<Pair>)
    ensures |p| == |values|
    ensures forall i :: 0 <= i < |values| ==> p[i] == Pair(nid, values[i])
  {
    seq(|values|, i requires 0 <= i < |values| => Pair(nid, values[i]))
  }

  /** Field by field in policy order, all request entries of that field in request order. */
  function Wanted(policy: seq<PolicyField>, req: Name, nids: NidTable): seq<Pair>
    requires forall i :: 0 <= i < |policy| ==> nids(policy[i].name).Some?
    decreases |policy|
  {
    if policy == [] then []
    else
      var nid := nids(policy[|policy| - 1].name).value;
      Wanted(policy[..|policy| - 1], req, nids) + Tagged(nid, Values(req, nid))
  }

  ghost predicate Accepts(policy: seq<PolicyField>, req: Name, ca: Name, nids: NidTable) {
    forall i :: 0 <= i < |policy| ==> Acceptable(policy[i], req, ca, nids)
  }

  // ----- the policy, entry by entry -----

  ghost predicate HasField(n: Name, nid: int) {
    exists k :: 0 <= k < |n| && n[k].nid == nid
  }

  ghost predicate HasEqual(n: Name, e: Entry) {
    exists k :: 0 <= k < |n| && n[k].nid == e.nid && n[k].value == e.value
  }

  /** Some request entry of the field has no equal in the CA name. */
  ghost predicate Deviates(req: Name, ca: Name, nid: int) {
    exists k :: 0 <= k < |req| && req[k].nid == nid && !HasEqual(ca, req[k])
  }

  /** What the request and the CA name must satisfy for one policy field. */
  ghost predicate Acceptable(f: PolicyField, req: Name, ca: Name, nids: NidTable) {
    && nids(f.name).Some?
    && (f.value == "optional" || f.value == "supplied" || f.value == "match")
    && (f.value != "optional" ==> HasField(req, nids(f.name).value))
    && (f.value == "match" ==> !Deviates(req, ca, nids(f.name).value))
  }

  /** What each error says about the names. */
  ghost predicate Explains(e: PolicyError, f: PolicyField, req: Name, ca: Name, nids: NidTable) {
    if nids(f.name).None? then e == UnknownObject
    else
      var nid := nids(f.name).value;
      match e
      case UnknownObject => false
      case InvalidType => f.value != "optional" && f.value != "supplied" && f.value != "match"
      case NotSupplied => f.value == "supplied" && !HasField(req, nid)
      case MandatoryMissing => f.value == "match" && !HasField(req, nid)
      case NotInCa => f.value == "match" && HasField(req, nid) && !HasField(ca, nid)
      case DiffersFromCa => f.value == "match" && HasField(ca, nid) && Deviates(req, ca, nid)
  }

  lemma {:induction false} ValueIsGiven(n: Name, nid: int, v: Asn1String)
    ensures v in Values(n, nid) <==> exists k :: 0 <= k < |n| && n[k].nid == nid && n[k].value == v
    decreases |n|
  {
    if n != [] {
      var m := n[..|n| - 1];
      ValueIsGiven(m, nid, v);
      assert forall k :: 0 <= k < |m| ==> n[k] == m[k];
    }
  }

  lemma FieldIsGiven(n: Name, nid: int)
    ensures Values(n, nid) != [] <==> HasField(n, nid)
  {
    if Values(n, nid) != [] {
      ValueIsGiven(n, nid, Values(n, nid)[0]);
    }
    forall k | 0 <= k < |n| && n[k].nid == nid ensures Values(n, nid) != [] {
      ValueIsGiven(n, nid, n[k].value);
    }
  }

  lemma AllInExact(req: Name, ca: Name, nid: int)
    ensures AllIn(Values(req, nid), Values(ca, nid)) <==> !Deviates(req, ca, nid)
  {
    var given, issuer := Values(req, nid), Values(ca, nid);
    forall k | 0 <= k < |req| && req[k].nid == nid ensures req[k].value in issuer <==> HasEqual(ca, req[k]) {
      ValueIsGiven(ca, nid, req[k].value);
    }
    if !AllIn(given, issuer) {
      var i :| 0 <= i < |given| && given[i] !in issuer;
      ValueIsGiven(req, nid, given[i]);
    }
    if AllIn(given, issuer) {
      forall k | 0 <= k < |req| && req[k].nid == nid ensures HasEqual(ca, req[k]) {
        ValueIsGiven(req, nid, req[k].value);
      }
    }
  }

  /** A field passes exactly when the entries satisfy it, and an error says what they lack. */
  lemma VerdictExact(f: PolicyField, req: Name, ca: Name, nids: NidTable)
    ensures Verdict(f, req, ca, nids).None? <==> Acceptable(f, req, ca, nids)
    ensures forall e :: Verdict(f, req, ca, nids) == Some(e) <==> Explains(e, f, req, ca, nids)
  {
    if nids(f.name).Some? {
      var nid := nids(f.name).value;
      FieldIsGiven(req, nid);
      FieldIsGiven(ca, nid);
      AllInExact(req, ca, nid);
      if Deviates(req, ca, nid) { assert HasField(req, nid); }
      if HasField(req, nid) && !HasField(ca, nid) { NoEqual(req, ca, nid); }
    }
  }

  lemma NoEqual(req: Name, ca: Name, nid: int)
    requires HasField(req, nid) && !HasField(ca, nid)
    ensures Deviates(req, ca, nid)
  {
    var k :| 0 <= k < |req| && req[k].nid == nid;
    assert !HasEqual(ca, req[k]);
  }

  /** The places a subject entry comes from: a policy field and a request entry. */
  datatype Origin = Origin(field: nat, entry: nat)

  predicate Before(a: Origin, b: Origin) {
    a.field < b.field || (a.field == b.field && a.entry < b.entry)
  }

  predicate Comes(policy: seq<PolicyField>, req: Name, nids: NidTable, o: Origin) {
    o.field < |policy| && o.entry < |req| && nids(policy[o.field].name) == Some(req[o.entry].nid)
  }

  /** The request entries of one field, as origins. */
  ghost function FieldOrigins(req: Name, nid: int, field: nat): seq<Origin> {
    if req == [] then []
    else
      FieldOrigins(req[..|req| - 1], nid, field)
      + (if req[|req| - 1].nid == nid then [Origin(field, |req| - 1)] else [])
  }

  ghost function Origins(policy: seq<PolicyField>, req: Name, nids: NidTable): seq<Origin>
    requires forall i :: 0 <= i < |policy| ==> nids(policy[i].name).Some?
    decreases |policy|
  {
    if policy == [] then []
    else
      var n := |policy| - 1;
      Origins(policy[..n], req, nids) + FieldOrigins(req, nids(policy[n].name).value, n)
  }

  ghost predicate InOrder(o: seq<Origin>) {
    forall p, q :: 0 <= p < q < |o| ==> Before(o[p], o[q])
  }

  lemma {:induction false} FieldOriginsExact(req: Name, nid: int, field: nat)
    ensures var o := FieldOrigins(req, nid, field);
      && InOrder(o)
      && |o| == |Values(req, nid)|
      && (forall p :: 0 <= p < |o| ==> o[p].field == field && o[p].entry < |req| && req[o[p].entry].nid == nid)
      && (forall p :: 0 <= p < |o| ==> Values(req, nid)[p] == req[o[p].entry].value)
      && (forall k: nat :: k < |req| && req[k].nid == nid ==> Origin(field, k) in o)
    decreases |req|
  {
    if req != [] {
      var m := req[..|req| - 1];
      FieldOriginsExact(m, nid, field);
      assert forall k :: 0 <= k < |m| ==> req[k] == m[k];
    }
  }

  /** The wanted subject: exactly the request entries of the policy fields, by field and then by
      their order in the request. */
  lemma {:induction false} WantedExact(policy: seq<PolicyField>, req: Name, nids: NidTable)
    requires forall i :: 0 <= i < |policy| ==> nids(policy[i].name).Some?
    ensures var o, w := Origins(policy, req, nids), Wanted(policy, req, nids);
      && InOrder(o) && |o| == |w|
      && (forall x :: x in o <==> Comes(policy, req, nids, x))
      && (forall p :: 0 <= p < |w| ==> o[p].entry < |req| && w[p] == Pair(req[o[p].entry].nid, req[o[p].entry].value))
    decreases |policy|
  {
    if policy != [] {
      var n := |policy| - 1;
      var nid := nids(policy[n].name).value;
      WantedExact(policy[..n], req, nids);
      FieldOriginsExact(req, nid, n);
      var a, b := Origins(policy[..n], req, nids), FieldOrigins(req, nid, n);
      forall x: Origin ensures x in a + b <==> Comes(policy, req, nids, x) {
        assert x.field < n ==> (Comes(policy, req, nids, x) <==> Comes(policy[..n], req, nids, x));
      }
      OriginsJoin(policy[..n], req, nids, a, b, n);
    }
  }

  lemma OriginsJoin(policy: seq<PolicyField>, req: Name, nids: NidTable, a: seq<Origin>, b: seq<Origin>, n: nat)
    requires InOrder(a) && InOrder(b) && |policy| <= n
    requires forall x :: x in a ==> Comes(policy, req, nids, x)
    requires forall p :: 0 <= p < |b| ==> b[p].field == n
    ensures InOrder(a + b)
  {
    var o := a + b;
    forall p, q | 0 <= p < q < |o| ensures Before(o[p], o[q]) {
      if p < |a| { assert a[p] in a; }
    }
  }

  ghost predicate OwnRdns(n: Name) {
    forall i :: 0 <= i < |n| ==> n[i].rdn == i
  }

  datatype Outcome = Subject(subject: Name) | Refused(field: nat, error: PolicyError)

  // ----- the policy, as the program applies it -----

  lemma ValuesUpTo(n: Name, nid: int, last: int, j: int)
    requires -1 <= last < |n| && j == IndexByNid(n, nid, last)
    ensures j >= 0 ==> Values(n[..j + 1], nid) == Values(n[..last + 1], nid) + [n[j].value]
    ensures j < 0 ==> Values(n, nid) == Values(n[..last + 1], nid)
  {
    if j >= 0 {
      SkipOthers(n, nid, last + 1, j);
      assert n[..j + 1][..j] == n[..j];
    } else {
      SkipOthers(n, nid, last + 1, |n|);
      assert n[..|n|] == n;
    }
  }

  lemma {:induction false} SkipOthers(n: Name, nid: int, from: nat, end: nat)
    requires from <= end <= |n| && forall i :: from <= i < end ==> n[i].nid != nid
    ensures Values(n[..end], nid) == Values(n[..from], nid)
    decreases end
  {
    if from < end {
      assert n[..end][..end - 1] == n[..end - 1];
      SkipOthers(n, nid, from, end - 1);
    }
  }

  lemma {:induction false} ValuesPrefix(n: Name, nid: int, k: nat)
    requires k <= |n|
    ensures Values(n[..k], nid) <= Values(n, nid)
    decreases |n|
  {
    if k < |n| {
      assert n[..|n| - 1][..k] == n[..k];
      ValuesPrefix(n[..|n| - 1], nid, k);
    } else {
      assert n[..k] == n;
    }
  }

  /** The search through the CA name for an equal value: walks the entries of the field in order. */
  method FindInCa(ca: Name, nid: int, value: Asn1String) returns (push: Option<Entry>, error: PolicyError)
    ensures push.Some? <==> value in Values(ca, nid)
    ensures push.Some? ==> push.value.nid == nid && push.value.value == value
    ensures push.None? ==> error == if Values(ca, nid) == [] then NotInCa else DiffersFromCa
  {
    var last2 := -1;
    error := NotInCa;
    while true
      invariant -1 <= last2 < |ca|
      invariant value !in Values(ca[..last2 + 1], nid)
      invariant last2 == -1 ==> error == NotInCa
      invariant last2 >= 0 ==> error == DiffersFromCa && Values(ca[..last2 + 1], nid) != []
      decreases |ca| - last2
    {
      var j := IndexByNid(ca, nid, last2);
      if |ca| > 0 { ValuesUpTo(ca, nid, last2, j); }
      if j < 0 {
        return None, error;
      }
      last2 := j;
      error := DiffersFromCa;
      ValuesPrefix(ca, nid, j + 1);
      if ca[j].value == value {
        assert Values(ca[..j + 1], nid)[|Values(ca[..j + 1], nid)| - 1] == value;
        return Some(ca[j]), error;
      }
    }
  }

  /** One policy field: every request entry of the field is checked and pushed. */
  method ApplyField(subject0: Name, f: PolicyField, req: Name, ca: Name, nids: NidTable)
    returns (subject: Name, error: Option<PolicyError>)
    requires OwnRdns(subject0)
    ensures error == Verdict(f, req, ca, nids)
    ensures error.None? ==> OwnRdns(subject)
    ensures error.None? ==>
      var nid := nids(f.name).value; Pairs(subject) == Pairs(subject0) + Tagged(nid, Values(req, nid))
  {
    subject := subject0;
    if nids(f.name).None? {
      return subject, Some(UnknownObject);
    }
    var nid := nids(f.name).value;
    var last := -1;
    assert req[..0] == [];
    while true
      invariant -1 <= last < |req|
      invariant OwnRdns(subject)
      invariant Pairs(subject) == Pairs(subject0) + Tagged(nid, Values(req[..last + 1], nid))
      invariant last >= 0 ==> Values(req[..last + 1], nid) != []
      invariant last >= 0 ==> f.value == "optional" || f.value == "supplied" || f.value == "match"
      invariant f.value == "match" ==> AllIn(Values(req[..last + 1], nid), Values(ca, nid))
      invariant last >= 0 && f.value == "match" ==> Values(ca, nid) != []
      decreases |req| - last
    {
      var j := IndexByNid(req, nid, last);
      if |req| > 0 { ValuesUpTo(req, nid, last, j); }
      if j < 0 && last != -1 {
        return subject, None;
      }
      ghost var seen := Values(req[..last + 1], nid);
      var push: Option<Entry> := None;
      if f.value == "optional" {
        if j >= 0 { push := Some(req[j]); }
      } else if f.value == "supplied" {
        if j < 0 {
          return subject, Some(NotSupplied);
        }
        push := Some(req[j]);
      } else if f.value == "match" {
        if j < 0 {
          return subject, Some(MandatoryMissing);
        }
        ValuesPrefix(req, nid, j + 1);
        var e;
        push, e := FindInCa(ca, nid, req[j].value);
        if push.None? {
          assert Values(req, nid)[|seen|] == req[j].value;
          return subject, Some(e);
        }
      } else {
        return subject, Some(InvalidType);
      }
      if j < 0 {
        assert Tagged(nid, Values(req, nid)) == [];
        return subject, None;
      }
      PushPair(subject, push.value, Pairs(subject0), nid, seen);
      subject := AddEntry(subject, push.value);
      last := j;
    }
  }

  lemma PushPair(subject: Name, e: Entry, before: seq<Pair>, nid: int, seen: seq<Asn1String>)
    requires OwnRdns(subject) && e.nid == nid && Pairs(subject) == before + Tagged(nid, seen)
    ensures OwnRdns(AddEntry(subject, e))
    ensures Pairs(AddEntry(subject, e)) == before + Tagged(nid, seen + [e.value])
  {
    assert Pairs(AddEntry(subject, e)) == Pairs(subject) + [Pair(nid, e.value)];
    assert Tagged(nid, seen + [e.value]) == Tagged(nid, seen) + [Pair(nid, e.value)];
  }

  /** The policy loops succeed exactly when every policy field is acceptable, and then
      build the wanted subject with one RDN for each entry; otherwise they report
      the first field in policy order that is not acceptable. */
  method ApplyPolicy(policy: seq<PolicyField>, req: Name, ca: Name, nids: NidTable) returns (r: Outcome)
    ensures r.Subject? <==> Accepts(policy, req, ca, nids)
    ensures r.Subject? ==> OwnRdns(r.subject) && Pairs(r.subject) == Wanted(policy, req, nids)
    ensures r.Refused? ==>
      && r.field < |policy|
      && Explains(r.error, policy[r.field], req, ca, nids)
      && Accepts(policy[..r.field], req, ca, nids)
  {
    var subject: Name := [];
    for i := 0 to |policy|
      invariant Accepts(policy[..i], req, ca, nids)
      invariant OwnRdns(subject)
      invariant Pairs(subject) == Wanted(policy[..i], req, nids)
    {
      var error;
      assert policy[..i + 1][..i] == policy[..i];
      subject, error := ApplyField(subject, policy[i], req, ca, nids);
      VerdictExact(policy[i], req, ca, nids);
      if error.Some? {
        return Refused(i, error.value);
      }
    }
    assert policy[..|policy|] == policy;
    r := Subject(subject);
  }

  // ----- removal of e-mail addresses -----

  /** RDN numbers start at zero and go up by at most one. */
  ghost predicate WellFormed(n: Name) {
    && (n != [] ==> n[0].rdn == 0)
    && Rising(n)
    && forall i :: 0 < i < |n| ==> Tight(n, i)
  }

  predicate Tight(n: Name, i: nat)
    requires 0 < i < |n|
  {
    n[i].rdn <= n[i - 1].rdn + 1
  }

  ghost predicate Rising(n: Name) {
    forall i, j :: 0 <= i < j < |n| ==> n[i].rdn <= n[j].rdn
  }

  /** A field, its value, and whether it joins the RDN of its predecessor. */
  datatype Mark = Mark(nid: int, value: Asn1String, joined: bool)

  /** The fields and their grouping, whatever the RDN numbers. */
  function Shape(n: Name): (m: seq<Mark>)
    ensures |m| == |n|
    ensures forall i {:trigger m[i]} :: 0 <= i < |n| ==> m[i] == Mark(n[i].nid, n[i].value, Joins(n, i))
  {
    seq(|n|, i requires 0 <= i < |n| => Mark(n[i].nid, n[i].value, Joins(n, i)))
  }

  predicate Joins(n: Name, i: nat)
    requires i < |n|
  {
    i > 0 && n[i].rdn == n[i - 1].rdn
  }

  /** Names of the same shape put the same entries into a common RDN. */
  lemma {:induction false} SameShapeGroups(a: Name, b: Name, i: nat, j: nat)
    requires Rising(a) && Rising(b) && Shape(a) == Shape(b) && i <= j < |a|
    ensures |b| == |a| && a[i].rdn <= a[j].rdn && b[i].rdn <= b[j].rdn
    ensures a[i].rdn == a[j].rdn <==> b[i].rdn == b[j].rdn
    decreases j
  {
    assert |Shape(a)| == |a| == |b|;
    if i < j {
      SameShapeGroups(a, b, i, j - 1);
      assert Shape(a)[j] == Shape(b)[j];
    }
  }

  lemma RemoveRises(n: Name, loc: nat)
    requires Rising(n) && loc < |n|
    ensures Rising(RemoveAt(n, loc))
  {
  }

  /** Removing an entry: its successor joins the predecessor only if both were joined. */
  function RemoveMark(m: seq<Mark>, loc: nat): seq<Mark>
    requires loc < |m|
  {
    if loc + 1 == |m| then m[..loc]
    else m[..loc] + [m[loc + 1].(joined := m[loc].joined && m[loc + 1].joined)] + m[loc + 2..]
  }

  lemma RemoveShape(n: Name, loc: nat)
    requires Rising(n) && loc < |n|
    ensures Shape(RemoveAt(n, loc)) == RemoveMark(Shape(n), loc)
  {
    var r := RemoveAt(n, loc);
    var x, y := Shape(r), RemoveMark(Shape(n), loc);
    forall i | 0 <= i < |r| ensures x[i] == y[i] {
      assert i < loc ==> r[i] == n[i] && Joins(r, i) == Joins(n, i);
      assert i > loc ==> r[i] == n[i + 1] && Joins(r, i) == Joins(n, i + 1);
      assert i == loc ==> r[i] == n[i + 1] && Joins(r, i) == (Joins(n, i) && Joins(n, i + 1));
    }
  }

  /** Deleting an entry keeps the grouping of the others. */
  lemma DeleteKeepsShape(n: Name, loc: nat)
    requires WellFormed(n) && loc < |n|
    ensures Shape(Delete(n, loc)) == Shape(RemoveAt(n, loc))
  {
    var d, r := Delete(n, loc), RemoveAt(n, loc);
    forall i | 0 <= i < |d| ensures Shape(d)[i] == Shape(r)[i] {
      assert d[i].nid == r[i].nid && d[i].value == r[i].value;
      if i == loc && i > 0 { assert Tight(n, i) && Tight(n, i + 1); }
      assert Joins(d, i) == Joins(r, i);
    }
  }

  lemma DeleteWellFormed(n: Name, loc: nat)
    requires WellFormed(n) && loc < |n|
    ensures WellFormed(Delete(n, loc))
  {
    DeleteRises(n, loc);
    DeleteTight(n, loc);
  }

  lemma DeleteTight(n: Name, loc: nat)
    requires WellFormed(n) && loc < |n|
    ensures var d := Delete(n, loc); (d != [] ==> d[0].rdn == 0) && forall i :: 0 < i < |d| ==> Tight(d, i)
  {
    var d := Delete(n, loc);
    if loc + 1 < |n| { assert Tight(n, loc + 1) && (loc > 0 ==> Tight(n, loc)); }
    forall i | 0 < i < |d| ensures Tight(d, i) {
      assert i < loc ==> Tight(n, i);
      assert i >= loc ==> Tight(n, i + 1);
    }
  }

  lemma DeleteRises(n: Name, loc: nat)
    requires WellFormed(n) && loc < |n|
    ensures Rising(Delete(n, loc))
  {
    var rest := RemoveAt(n, loc);
    RemoveRises(n, loc);
    if loc < |rest| && Delete(n, loc) != rest {
      var prev := if loc != 0 then rest[loc - 1].rdn else n[loc].rdn - 1;
      LoweredRises(rest, loc, prev);
    }
  }

  lemma LoweredRises(n: Name, loc: nat, prev: int)
    requires Rising(n) && loc < |n| && prev + 1 < n[loc].rdn && (loc > 0 ==> prev == n[loc - 1].rdn)
    ensures Rising(n[..loc] + Lowered(n[loc..]))
  {
    var d := n[..loc] + Lowered(n[loc..]);
    forall i, j | 0 <= i < j < |d| ensures d[i].rdn <= d[j].rdn {
      assert n[i].rdn <= n[j].rdn;
      if i < loc <= j {
        assert i == loc - 1 || n[i].rdn <= n[loc - 1].rdn;
        assert j == loc || n[loc].rdn <= n[j].rdn;
      }
    }
  }

  /** The entries that are not of the field. */
  function Without(n: Name, nid: int): (r: Name)
    ensures forall i :: 0 <= i < |r| ==> r[i].nid != nid
  {
    if n == [] then []
    else Without(n[..|n| - 1], nid) + (if n[|n| - 1].nid == nid then [] else [n[|n| - 1]])
  }

  lemma {:induction false} WithoutNone(n: Name, nid: int, k: nat, end: nat)
    requires k <= end <= |n| && forall i :: k <= i < end ==> n[i].nid != nid
    ensures Without(n[..end], nid) == Without(n[..k], nid) + n[k..end]
    decreases end
  {
    if k < end {
      assert n[..end][..end - 1] == n[..end - 1];
      WithoutNone(n, nid, k, end - 1);
      assert n[k..end - 1] + [n[end - 1]] == n[k..end];
    } else {
      assert n[k..end] == [];
    }
  }

  /** The entries up to `k` without the field, followed by the entries not yet looked at. */
  ghost function Reference(name: Name, nid: int, k: nat): Name
    requires k <= |name|
  {
    Without(name[..k], nid) + name[k..]
  }

  /** The state of the removal: `dn` has the shape of the reference, and everything up to
      position `i` has been looked at. */
  ghost predicate Pruned(dn: Name, i: int, name: Name, nid: int, k: nat)
    requires k <= |name|
  {
    && WellFormed(dn) && Rising(Reference(name, nid, k))
    && Shape(dn) == Shape(Reference(name, nid, k)) && i + 1 == |Without(name[..k], nid)|
  }

  lemma SameFields(dn: Name, i: int, name: Name, nid: int, k: nat)
    requires k <= |name| && Shape(dn) == Shape(Reference(name, nid, k)) && i + 1 == |Without(name[..k], nid)|
    ensures |dn| == |Reference(name, nid, k)| == i + 1 + |name| - k
    ensures forall q :: k <= q < |name| ==> name[q].nid == dn[q - k + i + 1].nid
  {
    var reference := Reference(name, nid, k);
    assert |Shape(dn)| == |dn| == |reference|;
    forall q | k <= q < |name| ensures name[q].nid == dn[q - k + i + 1].nid {
      assert name[q] == reference[q - k + i + 1];
      assert Shape(dn)[q - k + i + 1] == Shape(reference)[q - k + i + 1];
    }
  }

  lemma CutReference(kept: Name, name: Name, k: nat, p: nat)
    requires k <= p < |name|
    ensures RemoveAt(kept + name[k..], |kept| + p - k) == kept + name[k..p] + name[p + 1..]
  {
    assert kept + name[k..] == kept + name[k..p] + [name[p]] + name[p + 1..];
  }

  /** Removing the next entry of the field from one reference gives the next one. */
  lemma NextReference(name: Name, nid: int, k: nat, p: nat)
    requires k <= p < |name| && name[p].nid == nid && forall q :: k <= q < p ==> name[q].nid != nid
    ensures |Without(name[..p + 1], nid)| == |Without(name[..k], nid)| + p - k
    ensures RemoveAt(Reference(name, nid, k), |Without(name[..k], nid)| + p - k) == Reference(name, nid, p + 1)
  {
    WithoutNone(name, nid, k, p);
    assert name[..p + 1][..p] == name[..p];
    CutReference(Without(name[..k], nid), name, k, p);
  }

  lemma DeleteFollows(dn: Name, reference: Name, at: nat)
    requires WellFormed(dn) && Rising(reference) && Shape(dn) == Shape(reference) && at < |dn|
    ensures |reference| == |dn| && WellFormed(Delete(dn, at)) && Rising(RemoveAt(reference, at))
    ensures Shape(Delete(dn, at)) == Shape(RemoveAt(reference, at))
  {
    assert |Shape(dn)| == |dn| == |reference|;
    DeleteKeepsShape(dn, at);
    DeleteWellFormed(dn, at);
    RemoveShape(dn, at);
    RemoveShape(reference, at);
    RemoveRises(reference, at);
  }

  lemma NextPosition(dn: Name, i: int, name: Name, nid: int, k: nat, at: nat) returns (p: nat)
    requires k <= |name| && Shape(dn) == Shape(Reference(name, nid, k)) && i + 1 == |Without(name[..k], nid)|
    requires at == IndexByNid(dn, nid, i)
    ensures k <= p < |name| && at == i + 1 + p - k && name[p].nid == nid
    ensures forall q :: k <= q < p ==> name[q].nid != nid
  {
    p := k + at - (i + 1);
    SameFields(dn, i, name, nid, k);
  }

  lemma PruneNext(dn: Name, i: int, name: Name, nid: int, k: nat, at: nat) returns (p: nat)
    requires k <= |name| && Pruned(dn, i, name, nid, k) && at == IndexByNid(dn, nid, i)
    ensures k <= p < |name| && Pruned(Delete(dn, at), at - 1, name, nid, p + 1)
  {
    p := NextPosition(dn, i, name, nid, k, at);
    NextReference(name, nid, k, p);
    DeleteFollows(dn, Reference(name, nid, k), at);
  }

  lemma PruneDone(dn: Name, i: int, name: Name, nid: int, k: nat)
    requires k <= |name| && Pruned(dn, i, name, nid, k) && IndexByNid(dn, nid, i) < 0
    ensures Reference(name, nid, k) == Without(name, nid)
  {
    SameFields(dn, i, name, nid, k);
    WithoutNone(name, nid, k, |name|);
    assert name[..|name|] == name && name[k..|name|] == name[k..];
  }

  lemma PruneStart(name: Name, nid: int)
    requires WellFormed(name)
    ensures Pruned(name, -1, name, nid, 0)
  {
    assert name[..0] == [] && Reference(name, nid, 0) == name;
  }

  /** Deletes every entry of the field in place. What stays is the name without them:
      same values, same order, same grouping into RDNs, and tight RDN numbers. */
  method RemoveAll(name: Name, nid: int) returns (dn: Name)
    requires WellFormed(name)
    ensures WellFormed(dn) && Rising(Without(name, nid)) && Shape(dn) == Shape(Without(name, nid))
  {
    dn := name;
    var i := -1;
    ghost var k := 0;
    PruneStart(name, nid);
    while true
      invariant -1 <= i && 0 <= k <= |name| && Pruned(dn, i, name, nid, k)
      decreases |dn| - i
    {
      var at := IndexByNid(dn, nid, i);
      if at < 0 {
        PruneDone(dn, i, name, nid, k);
        return;
      }
      ghost var p := PruneNext(dn, i, name, nid, k, at);
      dn := Delete(dn, at);
      i := at - 1;
      k := p + 1;
    }
  }
}
