/** The Go and Java registries, whose lists come from a library, and the replies each daemon owes to a request. */
module Providers {
  import opened Types
  import Registry
  import Lookup
  import CList

  lemma MatchesSnoc(l: seq<ServiceInfo>, i: nat, name: Text)
    requires i < |l|
    ensures |Lookup.Matches(l[..i + 1], name)| == |Lookup.Matches(l[..i], name)| + if l[i].service == name then 1 else 0
  {
    Lookup.MatchesSplit(l[..i + 1], i, name);
    assert l[..i + 1][..i] == l[..i] && l[..i + 1][i..] == [l[i]];
  }

  /** provider.go */
  class Provider {
    var list: seq<ServiceInfo>

    constructor ()
      ensures list == []
    {
      list := [];
    }

    method RemoveByName(device: Text, service: Text) returns (removed: bool)
      modifies this
      ensures list == Registry.RemoveKey(old(list), ServiceKey(device, service))
      ensures removed <==> Registry.HasKey(old(list), ServiceKey(device, service))
    {
      var k := ServiceKey(device, service);
      var i := 0;
      while i < |list|
        invariant i <= |list| && list == old(list)
        invariant forall j :: 0 <= j < i ==> list[j].Key() != k
      {
        if list[i].device == device && list[i].service == service {
          CList.IndexIs(list, k, i);
          list := list[..i] + list[i + 1..];
          return true;
        }
        i := i + 1;
      }
      removed := false;
    }

    method AddInfo(info: ServiceInfo)
      modifies this
      ensures list == Registry.PutFront(old(list), info)
    {
      var _ := RemoveByName(info.device, info.service);
      list := [info] + list;
    }

    method GetCount(service: Text) returns (count: nat)
      ensures count == |Lookup.Matches(list, service)|
    {
      count := 0;
      for i := 0 to |list|
        invariant count == |Lookup.Matches(list[..i], service)|
      {
        MatchesSnoc(list, i, service);
        if list[i].service == service {
          count := count + 1;
        }
      }
      assert list[..|list|] == list;
    }

    /** `i` counts every entry passed, so a match is stored in the slot of its position, if there is one. */
    method GetAll(service: Text, infoOut: array<Option<ServiceInfo>>)
      requires forall i :: 0 <= i < infoOut.Length ==> infoOut[i].None?
      modifies infoOut
      ensures forall i :: 0 <= i < infoOut.Length ==> infoOut[i] == Lookup.GetAt(list, service, i)
    {
      var size := infoOut.Length;
      for i := 0 to |list|
        invariant forall j :: 0 <= j < size && j < i ==> infoOut[j] == Lookup.GetAt(list, service, j)
        invariant forall j :: i <= j < size ==> infoOut[j].None?
      {
        if list[i].service == service {
          if i < size {
            infoOut[i] := Some(list[i]);
          }
        }
      }
    }
  }

  function FoundAll(l: seq<ServiceInfo>): (r: seq<Reply>)
    ensures |r| == |l| && forall i :: 0 <= i < |l| ==> r[i] == Found(l[i])
  {
    seq(|l|, i requires 0 <= i < |l| => Found(l[i]))
  }

  /** Replies of the Go daemon to one request; `crashed` when it dereferenced a nil slot. */
  function GoReplies(l: seq<ServiceInfo>, r: Request): seq<Reply> {
    match r
    case Register(_) => [Succeeded]
    case Unregister(k) => if Registry.HasKey(l, k) then [Succeeded] else [NotFound]
    case Inquiry(name) =>
      if Lookup.Matches(l, name) == [] then [NotFound] else FoundAll(Lookup.BeforeNil(Lookup.GoSlots(l, name)))
  }

  function JavaReplies(l: seq<ServiceInfo>, r: Request): seq<Reply> {
    match r
    case Register(_) => [Succeeded]
    case Unregister(k) => if Registry.HasKey(l, k) then [Succeeded] else [NotFound]
    case Inquiry(name) =>
      if Lookup.Matches(l, name) == [] then [NotFound] else FoundAll(Lookup.JavaAnswer(l, name))
  }

  function CReplies(l: seq<ServiceInfo>, r: Request): seq<Reply> {
    match r
    case Register(_) => [Succeeded]
    case Unregister(k) => if Registry.HasKey(l, k) then [Succeeded] else [NotFound]
    case Inquiry(name) =>
      if Lookup.CAnswer(l, name) == [] then [NotFound] else FoundAll(Lookup.CAnswer(l, name))
  }

  // ---------- Java ----------

  /** A service whose text did not parse has null names; such an element of the Java list is `None`. */
  type JavaList = seq<Option<ServiceInfo>>

  function Named(l: seq<ServiceInfo>): (r: JavaList)
    ensures |r| == |l| && forall i :: 0 <= i < |l| ==> r[i] == Some(l[i])
  {
    seq(|l|, i requires 0 <= i < |l| => Some(l[i]))
  }

  /** The services before the first null name, as far as every method of the list gets. */
  function Front(l: JavaList): (r: seq<ServiceInfo>)
    ensures |r| <= |l| && forall i :: 0 <= i < |r| ==> l[i] == Some(r[i])
    ensures |r| < |l| ==> l[|r|].None?
  {
    Lookup.BeforeNil(l)
  }

  lemma FrontOf(a: seq<ServiceInfo>, rest: JavaList)
    requires rest == [] || rest[0].None?
    ensures Front(Named(a) + rest) == a
  {
    Lookup.BeforeNilUnique(Named(a) + rest, a);
  }

  predicate HasNull(l: JavaList) {
    |Front(l)| < |l|
  }

  predicate FrontHas(l: JavaList, k: Option<ServiceKey>) {
    k.Some? && Registry.HasKey(Front(l), k.value)
  }

  /** What `remove` leaves. It throws on a null name that it meets before the key. */
  function JavaRemove(l: JavaList, k: Option<ServiceKey>): Option<JavaList> {
    if FrontHas(l, k) then Some(Named(Registry.RemoveKey(Front(l), k.value)) + l[|Front(l)|..])
    else if HasNull(l) then None
    else Some(l)
  }

  lemma RemovedAt(l: JavaList, k: ServiceKey, i: nat)
    requires i < |Front(l)| && Front(l)[i].Key() == k
    requires forall j :: 0 <= j < i ==> Front(l)[j].Key() != k
    ensures JavaRemove(l, Some(k)) == Some(l[..i] + l[i + 1..])
  {
    var f := Front(l);
    CList.IndexIs(f, k, i);
    assert l[..i] + l[i + 1..] == Named(f[..i] + f[i + 1..]) + l[|f|..];
  }

  function KeyOf(info: Option<ServiceInfo>): Option<ServiceKey> {
    if info.Some? then Some(info.value.Key()) else None
  }

  /** ServiceInfoList.java, with null pointer exceptions as `thrown` */
  class ServiceInfoList {
    var list: JavaList

    constructor ()
      ensures list == []
    {
      list := [];
    }

    method Remove(k: Option<ServiceKey>) returns (removed: bool, thrown: bool)
      modifies this
      ensures removed <==> FrontHas(old(list), k)
      ensures thrown <==> JavaRemove(old(list), k).None?
      ensures list == if thrown then old(list) else JavaRemove(old(list), k).value
    {
      for i := 0 to |list|
        invariant list == old(list) && i <= |Front(list)|
        invariant forall j :: 0 <= j < i ==> Some(Front(list)[j].Key()) != k
      {
        if list[i].None? {
          return false, true;
        }
        if k.Some? && list[i].value.device == k.value.device && list[i].value.service == k.value.service {
          RemovedAt(list, k.value, i);
          list := list[..i] + list[i + 1..];
          return true, false;
        }
      }
      removed, thrown := false, false;
    }

    method Add(info: Option<ServiceInfo>) returns (thrown: bool)
      modifies this
      ensures thrown <==> JavaRemove(old(list), KeyOf(info)).None?
      ensures list == if thrown then old(list) else JavaRemove(old(list), KeyOf(info)).value + [info]
    {
      var _, failed := Remove(KeyOf(info));
      thrown := failed;
      if !failed {
        list := list + [info];
      }
    }

    method GetCount(service: Option<Text>) returns (count: nat, thrown: bool)
      ensures thrown <==> HasNull(list)
      ensures !thrown ==> count == if service.Some? then |Lookup.Matches(Front(list), service.value)| else 0
    {
      count := 0;
      ghost var f := Front(list);
      for i := 0 to |list|
        invariant i <= |f|
        invariant count == if service.Some? then |Lookup.Matches(f[..i], service.value)| else 0
      {
        if list[i].None? {
          return count, true;
        }
        if service.Some? {
          MatchesSnoc(f, i, service.value);
          if list[i].value.service == service.value {
            count := count + 1;
          }
        }
      }
      assert f[..|f|] == f;
      thrown := false;
    }

    method Get(service: Text, index: nat) returns (r: Option<ServiceInfo>, thrown: bool)
      ensures r == Lookup.GetAt(Front(list), service, index)
      ensures thrown <==> r.None? && HasNull(list)
    {
      for i := 0 to |list|
        invariant i <= |Front(list)|
        invariant index < i ==> Lookup.GetAt(Front(list), service, index).None?
      {
        if list[i].None? {
          return None, true;
        }
        if list[i].value.service == service && i == index {
          return list[i], false;
        }
      }
      r, thrown := None, false;
    }
  }

  /** The intended replies: an inquiry is answered with every match, or with "not found". */
  function FullReplies(l: seq<ServiceInfo>, r: Request): seq<Reply> {
    match r
    case Register(_) => [Succeeded]
    case Unregister(k) => if Registry.HasKey(l, k) then [Succeeded] else [NotFound]
    case Inquiry(name) =>
      if Lookup.Matches(l, name) == [] then [NotFound] else FoundAll(Lookup.Matches(l, name))
  }

  /**
   What each daemon sends on an inquiry, by the position of the entries: C the `m` matches at the head of the list, Go
   the same before it stops at a nil slot, Java the matches among as many entries as there are matches in all. C says
   "not found" when no match is at the head, Go and Java when there is none at all.
   */
  lemma RepliesByPosition(l: seq<ServiceInfo>, name: Text, m: nat)
    requires Lookup.Leads(l, name, m)
    ensures CReplies(l, Inquiry(name)) == if m == 0 then [NotFound] else FoundAll(l[..m])
    ensures var all := Lookup.Matches(l, name);
            && GoReplies(l, Inquiry(name)) == (if all == [] then [NotFound] else FoundAll(l[..m]))
            && JavaReplies(l, Inquiry(name))
            == (if all == [] then [NotFound] else FoundAll(Lookup.Matches(l[..|all|], name)))
  {
    Lookup.AnswerLeads(l, name, m);
    Lookup.GoAnswersTheRun(l, name);
    Lookup.JavaAnswerIsMatches(l, name);
  }

  /** `sent` and the crash are what Go's inquiry comes to on the list: the head run, and a nil slot behind it. */
  ghost predicate GoAnswers(l: seq<ServiceInfo>, name: Text, sent: seq<Reply>, crashed: bool) {
    forall m: nat :: Lookup.Leads(l, name, m) ==>
      && sent == (if Lookup.Matches(l, name) == [] then [NotFound] else FoundAll(l[..m]))
      && (crashed <==> m < |Lookup.Matches(l, name)|)
  }

  lemma GoAnswersOwed(l: seq<ServiceInfo>, name: Text)
    ensures GoAnswers(l, name, GoReplies(l, Inquiry(name)), Lookup.GoCrashes(l, name))
  {
    forall m: nat | Lookup.Leads(l, name, m)
      ensures GoReplies(l, Inquiry(name))
           == if Lookup.Matches(l, name) == [] then [NotFound] else FoundAll(l[..m])
      ensures Lookup.GoCrashes(l, name) <==> m < |Lookup.Matches(l, name)|
    {
      RepliesByPosition(l, name, m);
      Lookup.AnswerLeads(l, name, m);
      Lookup.CAnswerIsMatches(l, name);
      Lookup.GoCrashesIffRun(l, name);
    }
  }

  lemma HeadRun(l: seq<ServiceInfo>, name: Text)
    ensures Lookup.Leads(l, name, |Lookup.CAnswer(l, name)|)
  {
  }

  /** `sent` are the matches among as many entries as there are matches in all. */
  ghost predicate JavaAnswers(l: seq<ServiceInfo>, name: Text, sent: seq<Reply>) {
    var all := Lookup.Matches(l, name);
    sent == if all == [] then [NotFound] else FoundAll(Lookup.Matches(l[..|all|], name))
  }

  /** Java sends nothing at all when there are matches, but none among as many positions at the head of its list. */
  lemma JavaSilentIff(l: seq<ServiceInfo>, name: Text)
    ensures JavaReplies(l, Inquiry(name)) == []
       <==> Lookup.Matches(l, name) != [] && forall i :: 0 <= i < |Lookup.Matches(l, name)| ==> l[i].service != name
  {
    var head := l[..|Lookup.Matches(l, name)|];
    Lookup.JavaAnswerIsMatches(l, name);
    Lookup.MatchesNone(head, name);
    assert forall i :: 0 <= i < |head| ==> l[i] == head[i] && l[i] in head;
  }

  lemma FoundAllInjective(a: seq<ServiceInfo>, b: seq<ServiceInfo>)
    ensures FoundAll(a) == FoundAll(b) <==> a == b
    ensures FoundAll(a) != [NotFound]
  {
    if FoundAll(a) == FoundAll(b) {
      forall i | 0 <= i < |a| ensures a[i] == b[i] {
        assert FoundAll(a)[i] == FoundAll(b)[i];
      }
    }
    assert a != [] ==> FoundAll(a)[0] == Found(a[0]);
  }

  /** Each daemon sends the intended replies exactly when the matches come first in its list. */
  lemma FullIffGrouped(l: seq<ServiceInfo>, name: Text)
    ensures CReplies(l, Inquiry(name)) == FullReplies(l, Inquiry(name)) <==> Lookup.Grouped(l, name)
    ensures JavaReplies(l, Inquiry(name)) == FullReplies(l, Inquiry(name)) <==> Lookup.Grouped(l, name)
    ensures GoReplies(l, Inquiry(name)) == FullReplies(l, Inquiry(name)) <==> Lookup.Grouped(l, name)
  {
    var full := Lookup.Matches(l, name);
    Lookup.CompleteIffGrouped(l, name);
    Lookup.PrefixChain(l, name);
    FoundAllInjective(Lookup.CAnswer(l, name), full);
    FoundAllInjective(full, full);
    FoundAllInjective(Lookup.JavaAnswer(l, name), full);
    if full == [] {
      Lookup.GroupedByRun(l, name);
    }
  }

  /** The C answer to a list and to its mirror image coincide only when one entry is all there is. */
  lemma MirroredAnswers(l: seq<ServiceInfo>, name: Text)
    requires Registry.UniqueKeys(l) && Lookup.CAnswer(l, name) != []
    ensures Lookup.CAnswer(l, name) == Lookup.CAnswer(Registry.Reverse(l), name) <==> |l| == 1
  {
    var g := Registry.Reverse(l);
    var a, b := Lookup.CAnswer(l, name), Lookup.CAnswer(g, name);
    assert a[0] == l[0];
    if |l| == 1 {
      assert g == l;
    } else {
      assert l[0].Key() != l[|l| - 1].Key();
      if b != [] {
        assert b[0] == g[0] == l[|l| - 1];
      }
    }
  }

  lemma MatchesMirrored(l: seq<ServiceInfo>, name: Text)
    ensures Lookup.Matches(Registry.Reverse(l), name) == [] <==> Lookup.Matches(l, name) == []
  {
    var g := Registry.Reverse(l);
    Lookup.MatchesNone(l, name);
    Lookup.MatchesNone(g, name);
    assert forall i :: 0 <= i < |l| ==> l[i] == g[|l| - 1 - i];
    forall e ensures e in l <==> e in g {
      if e in l {
        var i :| 0 <= i < |l| && l[i] == e;
        assert g[|l| - 1 - i] == e;
      }
      if e in g {
        var i :| 0 <= i < |l| && g[i] == e;
        assert l[|l| - 1 - i] == e;
      }
    }
  }

  /** The replies of C and Go to one inquiry, from mirrored lists. */
  lemma InquiriesCompared(l: seq<ServiceInfo>, name: Text)
    requires Registry.UniqueKeys(l)
    ensures CReplies(l, Inquiry(name)) == GoReplies(Registry.Reverse(l), Inquiry(name))
       <==> Lookup.Matches(l, name) == [] || |l| == 1
  {
    var a, b := Lookup.CAnswer(l, name), Lookup.CAnswer(Registry.Reverse(l), name);
    Lookup.CAnswerIsMatches(l, name);
    Lookup.GoAnswersTheRun(Registry.Reverse(l), name);
    MatchesMirrored(l, name);
    FoundAllInjective(b, a);
    if Lookup.Matches(l, name) != [] {
      if a != [] {
        MirroredAnswers(l, name);
      } else {
        Lookup.MatchesNone(l, name);
      }
    }
  }

  lemma JavaOnOneEntry(l: seq<ServiceInfo>, name: Text)
    requires Lookup.Matches(l, name) == [] || |l| == 1
    ensures JavaReplies(l, Inquiry(name)) == CReplies(l, Inquiry(name))
  {
    FullIffGrouped(l, name);
    Lookup.GroupedByRun(l, name);
    Lookup.PrefixChain(l, name);
  }

  /**
   One history, three daemons. Register and unregister requests get the same reply everywhere. An inquiry gets the
   intended replies from all three exactly if the registry holds nothing but matches, or none; and it gets one and
   the same sequence of replies from all three exactly if no service matches or a single one is registered, because
   the Go list is in the opposite order.
   */
  lemma DaemonsAgree(h: seq<Request>, r: Request)
    ensures !r.Inquiry? ==>
              CReplies(Registry.Run(h), r) == JavaReplies(Registry.Run(h), r) == GoReplies(Registry.GoRun(h), r)
    ensures r.Inquiry? ==>
              (CReplies(Registry.Run(h), r) == JavaReplies(Registry.Run(h), r) == FullReplies(Registry.Run(h), r)
               && GoReplies(Registry.GoRun(h), r) == FullReplies(Registry.GoRun(h), r)
               <==> Lookup.Matches(Registry.Run(h), r.name) == Registry.Run(h)
                    || Lookup.Matches(Registry.Run(h), r.name) == [])
    ensures r.Inquiry? ==>
              (CReplies(Registry.Run(h), r) == JavaReplies(Registry.Run(h), r) == GoReplies(Registry.GoRun(h), r)
               <==> Lookup.Matches(Registry.Run(h), r.name) == [] || |Registry.Run(h)| == 1)
  {
    var l := Registry.Run(h);
    Registry.GoRegistryMirrors(h);
    Registry.RunUnique(h);
    if r.Inquiry? {
      FullIffGrouped(l, r.name);
      FullIffGrouped(Registry.GoRun(h), r.name);
      Lookup.BothCompleteAfter(h, r.name);
      InquiriesCompared(l, r.name);
      if Lookup.Matches(l, r.name) == [] || |l| == 1 {
        JavaOnOneEntry(l, r.name);
      }
    }
  }
}
