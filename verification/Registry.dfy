/**
 The registry as a sequence of entries, and what it holds after any history of requests.
 `Step` is the C and Java registry (append at the tail), `GoStep` the Go one (push at the front).
 */
module Registry {
  import opened Types

  ghost predicate UniqueKeys(l: seq<ServiceInfo>) {
    forall i, j :: 0 <= i < j < |l| ==> l[i].Key() != l[j].Key()
  }

  predicate HasKey(l: seq<ServiceInfo>, k: ServiceKey) {
    exists i :: 0 <= i < |l| && l[i].Key() == k
  }

  /** Position of the first entry with key `k`, or the length of the list. */
  function IndexOf(l: seq<ServiceInfo>, k: ServiceKey): (i: nat)
    ensures i <= |l|
    ensures forall j :: 0 <= j < i ==> l[j].Key() != k
    ensures i < |l| ==> l[i].Key() == k
  {
    if l == [] || l[0].Key() == k then 0 else 1 + IndexOf(l[1..], k)
  }

  /** Every implementation removes the first match and stops there. */
  function RemoveKey(l: seq<ServiceInfo>, k: ServiceKey): (r: seq<ServiceInfo>)
    ensures !HasKey(l, k) ==> r == l
    ensures HasKey(l, k) ==> |r| == |l| - 1
  {
    var i := IndexOf(l, k);
    if i < |l| then l[..i] + l[i + 1..] else l
  }

  function Put(l: seq<ServiceInfo>, entry: ServiceInfo): seq<ServiceInfo> {
    RemoveKey(l, entry.Key()) + [entry]
  }

  function PutFront(l: seq<ServiceInfo>, entry: ServiceInfo): seq<ServiceInfo> {
    [entry] + RemoveKey(l, entry.Key())
  }

  function Step(l: seq<ServiceInfo>, r: Request): seq<ServiceInfo> {
    match r
    case Register(entry) => Put(l, entry)
    case Unregister(key) => RemoveKey(l, key)
    case Inquiry(_) => l
  }

  function GoStep(l: seq<ServiceInfo>, r: Request): seq<ServiceInfo> {
    match r
    case Register(entry) => PutFront(l, entry)
    case Unregister(key) => RemoveKey(l, key)
    case Inquiry(_) => l
  }

  function Run(h: seq<Request>): seq<ServiceInfo> {
    if h == [] then [] else Step(Run(h[..|h| - 1]), h[|h| - 1])
  }

  function GoRun(h: seq<Request>): seq<ServiceInfo> {
    if h == [] then [] else GoStep(GoRun(h[..|h| - 1]), h[|h| - 1])
  }

  // ---------- removal of the first match is deletion of the key ----------

  /** The intended deletion: every entry but those with key `k`. */
  function Except(l: seq<ServiceInfo>, k: ServiceKey): (r: seq<ServiceInfo>)
    ensures forall e :: e in r <==> e in l && e.Key() != k
  {
    if l == [] then []
    else if l[0].Key() == k then Except(l[1..], k)
    else [l[0]] + Except(l[1..], k)
  }

  lemma RemoveKeyCons(a: ServiceInfo, l: seq<ServiceInfo>, k: ServiceKey)
    ensures RemoveKey([a] + l, k) == if a.Key() == k then l else [a] + RemoveKey(l, k)
  {
    assert ([a] + l)[1..] == l;
    if a.Key() != k {
      var i := IndexOf(l, k);
      assert IndexOf([a] + l, k) == 1 + i;
      if i < |l| {
        assert ([a] + l)[..1 + i] == [a] + l[..i];
        assert ([a] + l)[2 + i..] == l[i + 1..];
      }
    }
  }

  lemma ExceptAbsent(l: seq<ServiceInfo>, k: ServiceKey)
    requires !HasKey(l, k)
    ensures Except(l, k) == l
  {
    if l != [] {
      assert l[0].Key() != k;
      assert !HasKey(l[1..], k) by {
        assert forall i :: 0 <= i < |l[1..]| ==> l[1..][i] == l[i + 1];
      }
      ExceptAbsent(l[1..], k);
    }
  }

  lemma {:induction false} RemoveKeyDeletes(l: seq<ServiceInfo>, k: ServiceKey)
    requires UniqueKeys(l)
    ensures RemoveKey(l, k) == Except(l, k)
  {
    if l == [] {
    } else {
      var t := l[1..];
      assert l == [l[0]] + t;
      RemoveKeyCons(l[0], t, k);
      if l[0].Key() == k {
        assert !HasKey(t, k);
        ExceptAbsent(t, k);
      } else {
        RemoveKeyDeletes(t, k);
      }
    }
  }

  lemma RemoveKeyKeepsUnique(l: seq<ServiceInfo>, k: ServiceKey)
    requires UniqueKeys(l)
    ensures UniqueKeys(RemoveKey(l, k)) && !HasKey(RemoveKey(l, k), k)
  {
    RemoveKeyDeletes(l, k);
  }

  lemma StepKeepsUnique(l: seq<ServiceInfo>, r: Request)
    requires UniqueKeys(l)
    ensures UniqueKeys(Step(l, r)) && UniqueKeys(GoStep(l, r))
  {
    match r
    case Register(entry) => RemoveKeyKeepsUnique(l, entry.Key());
    case Unregister(key) => RemoveKeyKeepsUnique(l, key);
    case Inquiry(_) =>
  }

  lemma {:induction false} RunUnique(h: seq<Request>)
    ensures UniqueKeys(Run(h)) && UniqueKeys(GoRun(h))
  {
    if h == [] {
    } else {
      RunUnique(h[..|h| - 1]);
      StepKeepsUnique(Run(h[..|h| - 1]), h[|h| - 1]);
      StepKeepsUnique(GoRun(h[..|h| - 1]), h[|h| - 1]);
    }
  }

  // ---------- the registry as a function of the history ----------

  ghost predicate Touched(h: seq<Request>, k: ServiceKey) {
    exists i :: 0 <= i < |h| && h[i].Touches(k)
  }

  /** What request `r` contributes to the registry when `later` follows it. */
  ghost function Kept(r: Request, later: seq<Request>): seq<ServiceInfo> {
    if r.Register? && !Touched(later, r.entry.Key()) then [r.entry] else []
  }

  /** The registrations of `h` that no later request touches, in the order they were made. */
  ghost function Survivors(h: seq<Request>): seq<ServiceInfo> {
    if h == [] then [] else Kept(h[0], h[1..]) + Survivors(h[1..])
  }

  lemma TouchedSplit(a: seq<Request>, b: seq<Request>, k: ServiceKey)
    ensures Touched(a + b, k) <==> Touched(a, k) || Touched(b, k)
  {
    var c := a + b;
    if Touched(a, k) {
      var i :| 0 <= i < |a| && a[i].Touches(k);
      assert c[i].Touches(k);
    }
    if Touched(b, k) {
      var i :| 0 <= i < |b| && b[i].Touches(k);
      assert c[|a| + i].Touches(k);
    }
  }

  lemma {:induction false} SurvivorsAreTouched(h: seq<Request>, k: ServiceKey)
    requires !Touched(h, k)
    ensures !HasKey(Survivors(h), k)
  {
    if h == [] {
    } else {
      assert h == h[..1] + h[1..];
      TouchedSplit(h[..1], h[1..], k);
      SurvivorsAreTouched(h[1..], k);
      assert h[..1][0] == h[0];
    }
  }

  /** `l` are the survivors of `later`: appending `r` to `later` acts on what `a` contributes as well. */
  lemma KeptSnoc(a: Request, later: seq<Request>, l: seq<ServiceInfo>, r: Request)
    requires a.Register? && !Touched(later, a.entry.Key()) ==> !HasKey(l, a.entry.Key())
    ensures Kept(a, later + [r]) + Step(l, r) == Step(Kept(a, later) + l, r)
  {
    if a.Register? {
      var k := a.entry.Key();
      TouchedSplit(later, [r], k);
      assert Touched([r], k) <==> r.Touches(k) by { assert [r][0] == r; }
      if !r.Inquiry? {
        RemoveKeyCons(a.entry, l, if r.Register? then r.entry.Key() else r.key);
      }
    }
    if Kept(a, later) == [] {
      assert Kept(a, later) + l == l;
      assert Kept(a, later + [r]) == [];
    }
  }

  lemma {:induction false} SurvivorsSnoc(h: seq<Request>, r: Request)
    ensures Survivors(h + [r]) == Step(Survivors(h), r)
  {
    if h == [] {
      assert h + [r] == [r];
      assert Survivors([r]) == Kept(r, []);
    } else {
      var a, t := h[0], h[1..];
      assert (h + [r])[1..] == t + [r];
      SurvivorsSnoc(t, r);
      if a.Register? && !Touched(t, a.entry.Key()) {
        SurvivorsAreTouched(t, a.entry.Key());
      }
      KeptSnoc(a, t, Survivors(t), r);
    }
  }

  lemma RunSnoc(h: seq<Request>, r: Request)
    ensures Run(h + [r]) == Step(Run(h), r)
    ensures GoRun(h + [r]) == GoStep(GoRun(h), r)
  {
    assert (h + [r])[..|h|] == h;
  }

  /** The fold the daemons perform, and the registrations that survive the history, are the same list. */
  lemma {:induction false} RunIsSurvivors(h: seq<Request>)
    ensures Run(h) == Survivors(h)
  {
    if h == [] {
    } else {
      var g, r := h[..|h| - 1], h[|h| - 1];
      assert h == g + [r];
      RunIsSurvivors(g);
      RunSnoc(g, r);
      SurvivorsSnoc(g, r);
    }
  }

  /** Index of the latest request that touches `k`, or -1. */
  function LastTouch(h: seq<Request>, k: ServiceKey): (i: int)
    ensures -1 <= i < |h|
    ensures i >= 0 ==> h[i].Touches(k)
    ensures forall j :: i < j < |h| ==> !h[j].Touches(k)
  {
    if h == [] then -1
    else if h[|h| - 1].Touches(k) then |h| - 1
    else LastTouch(h[..|h| - 1], k)
  }

  lemma LastTouchSnoc(h: seq<Request>, r: Request, k: ServiceKey)
    ensures LastTouch(h + [r], k) == if r.Touches(k) then |h| else LastTouch(h, k)
  {
    assert (h + [r])[..|h|] == h;
  }

  ghost predicate RegisteredLast(h: seq<Request>, e: ServiceInfo) {
    var i := LastTouch(h, e.Key());
    i >= 0 && h[i] == Register(e)
  }

  lemma StepMembers(l: seq<ServiceInfo>, r: Request, e: ServiceInfo)
    requires UniqueKeys(l)
    ensures e in Step(l, r) <==> if r.Touches(e.Key()) then r == Register(e) else e in l
  {
    match r
    case Register(entry) => RemoveKeyDeletes(l, entry.Key());
    case Unregister(key) => RemoveKeyDeletes(l, key);
    case Inquiry(_) =>
  }

  lemma {:induction false} RegistryMembers(h: seq<Request>, e: ServiceInfo)
    ensures e in Run(h) <==> RegisteredLast(h, e)
  {
    if h == [] {
    } else {
      var n := |h| - 1;
      RegistryMembers(h[..n], e);
      RunUnique(h[..n]);
      StepMembers(Run(h[..n]), h[n], e);
    }
  }

  /** A key is registered exactly when the latest request about it was a registration. */
  lemma RegistryKeys(h: seq<Request>, k: ServiceKey)
    ensures HasKey(Run(h), k) <==> LastTouch(h, k) >= 0 && h[LastTouch(h, k)].Register?
  {
    if HasKey(Run(h), k) {
      var i :| 0 <= i < |Run(h)| && Run(h)[i].Key() == k;
      RegistryMembers(h, Run(h)[i]);
    }
    if LastTouch(h, k) >= 0 && h[LastTouch(h, k)].Register? {
      var e := h[LastTouch(h, k)].entry;
      RegistryMembers(h, e);
      var i :| 0 <= i < |Run(h)| && Run(h)[i] == e;
    }
  }

  ghost predicate OrderedByRegistration(l: seq<ServiceInfo>, h: seq<Request>) {
    forall i, j :: 0 <= i < j < |l| ==> LastTouch(h, l[i].Key()) < LastTouch(h, l[j].Key())
  }

  lemma RemoveKeyKeepsOrder(l: seq<ServiceInfo>, k: ServiceKey, h: seq<Request>)
    requires OrderedByRegistration(l, h)
    ensures OrderedByRegistration(RemoveKey(l, k), h)
  {
  }

  /** Entries with other keys keep their last-touch index when `r` is appended. */
  lemma OrderUntouched(l: seq<ServiceInfo>, h: seq<Request>, r: Request)
    requires OrderedByRegistration(l, h)
    requires forall e :: e in l ==> !r.Touches(e.Key())
    ensures OrderedByRegistration(l, h + [r])
  {
    forall i | 0 <= i < |l| ensures LastTouch(h + [r], l[i].Key()) == LastTouch(h, l[i].Key()) {
      LastTouchSnoc(h, r, l[i].Key());
    }
  }

  lemma OrderAppend(l: seq<ServiceInfo>, h: seq<Request>, e: ServiceInfo)
    requires OrderedByRegistration(l, h) && forall x :: x in l ==> x.Key() != e.Key()
    ensures OrderedByRegistration(l + [e], h + [Register(e)])
  {
    var r := Register(e);
    OrderUntouched(l, h, r);
    LastTouchSnoc(h, r, e.Key());
    forall x | x in l ensures LastTouch(h + [r], x.Key()) < |h| {
      LastTouchSnoc(h, r, x.Key());
    }
  }

  lemma StepKeepsOrder(l: seq<ServiceInfo>, h: seq<Request>, r: Request)
    requires UniqueKeys(l) && OrderedByRegistration(l, h)
    ensures OrderedByRegistration(Step(l, r), h + [r])
  {
    match r
    case Register(e) =>
      RemoveKeyKeepsOrder(l, e.Key(), h);
      RemoveKeyDeletes(l, e.Key());
      OrderAppend(RemoveKey(l, e.Key()), h, e);
    case Unregister(k) =>
      RemoveKeyKeepsOrder(l, k, h);
      RemoveKeyDeletes(l, k);
      OrderUntouched(RemoveKey(l, k), h, r);
    case Inquiry(_) =>
      OrderUntouched(l, h, r);
  }

  /** The entries stand in the order in which they were last registered. */
  lemma {:induction false} RegistryOrder(h: seq<Request>)
    ensures OrderedByRegistration(Run(h), h)
  {
    if h == [] {
    } else {
      var g, r := h[..|h| - 1], h[|h| - 1];
      assert h == g + [r];
      RegistryOrder(g);
      RunUnique(g);
      RunSnoc(g, r);
      StepKeepsOrder(Run(g), g, r);
    }
  }

  // ---------- the Go registry is the mirror image ----------

  function Reverse<T>(l: seq<T>): (r: seq<T>)
    ensures |r| == |l|
    ensures forall i :: 0 <= i < |l| ==> r[i] == l[|l| - 1 - i]
  {
    if l == [] then [] else Reverse(l[1..]) + [l[0]]
  }

  lemma {:induction false} ExceptConcat(a: seq<ServiceInfo>, b: seq<ServiceInfo>, k: ServiceKey)
    ensures Except(a + b, k) == Except(a, k) + Except(b, k)
  {
    if a == [] {
      assert a + b == b;
    } else {
      assert a + b == [a[0]] + (a[1..] + b);
      ExceptConcat(a[1..], b, k);
    }
  }

  lemma {:induction false} ExceptReverse(l: seq<ServiceInfo>, k: ServiceKey)
    ensures Except(Reverse(l), k) == Reverse(Except(l, k))
  {
    if l == [] {
    } else {
      ExceptConcat(Reverse(l[1..]), [l[0]], k);
      ExceptReverse(l[1..], k);
      if l[0].Key() != k {
        assert ([l[0]] + Except(l[1..], k))[1..] == Except(l[1..], k);
      }
    }
  }

  lemma RemoveKeyReverse(l: seq<ServiceInfo>, k: ServiceKey)
    requires UniqueKeys(l)
    ensures RemoveKey(Reverse(l), k) == Reverse(RemoveKey(l, k))
  {
    RemoveKeyDeletes(l, k);
    RemoveKeyDeletes(Reverse(l), k);
    ExceptReverse(l, k);
  }

  lemma HasKeyReverse(l: seq<ServiceInfo>, k: ServiceKey)
    ensures HasKey(Reverse(l), k) <==> HasKey(l, k)
  {
    var r := Reverse(l);
    if i :| 0 <= i < |l| && l[i].Key() == k {
      assert r[|l| - 1 - i].Key() == k;
    }
  }

  lemma ReverseSnoc<T>(l: seq<T>, x: T)
    ensures Reverse(l + [x]) == [x] + Reverse(l)
  {
    var a, b := Reverse(l + [x]), [x] + Reverse(l);
    assert forall i :: 0 <= i < |a| ==> a[i] == b[i];
  }

  lemma MirrorStep(l: seq<ServiceInfo>, r: Request)
    requires UniqueKeys(l)
    ensures GoStep(Reverse(l), r) == Reverse(Step(l, r))
  {
    match r
    case Register(e) =>
      RemoveKeyReverse(l, e.Key());
      ReverseSnoc(RemoveKey(l, e.Key()), e);
    case Unregister(k) =>
      RemoveKeyReverse(l, k);
    case Inquiry(_) =>
  }

  /** Same history, mirrored registry, and every unregister request has the same outcome. */
  lemma {:induction false} GoRegistryMirrors(h: seq<Request>)
    ensures GoRun(h) == Reverse(Run(h))
    ensures forall k :: HasKey(GoRun(h), k) <==> HasKey(Run(h), k)
  {
    if h == [] {
    } else {
      var n := |h| - 1;
      GoRegistryMirrors(h[..n]);
      RunUnique(h[..n]);
      MirrorStep(Run(h[..n]), h[n]);
    }
    forall k ensures HasKey(GoRun(h), k) <==> HasKey(Run(h), k) {
      HasKeyReverse(Run(h), k);
    }
  }
}
