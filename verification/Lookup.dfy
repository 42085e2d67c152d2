/**
 Looking services up by name. Every implementation indexes by the position in the whole list,
 not by the position among the matches, so an inquiry may be answered only in part.
 */
module Lookup {
  import opened Types
  import Registry

  /** The intended answer to an inquiry: every entry with that service name. */
  function Matches(l: seq<ServiceInfo>, name: Text): (r: seq<ServiceInfo>)
    ensures |r| <= |l|
    ensures forall e :: e in r <==> e in l && e.service == name
  {
    if l == [] then []
    else if l[0].service == name then [l[0]] + Matches(l[1..], name)
    else Matches(l[1..], name)
  }

  /** The positional lookup of `list_get` and of Java's `get`. */
  function GetAt(l: seq<ServiceInfo>, name: Text, index: nat): Option<ServiceInfo> {
    if index < |l| && l[index].service == name then Some(l[index]) else None
  }

  /** The C daemon asks for index 0, 1, 2, ... until the lookup fails: the answer is the maximal run of matches. */
  function CAnswerFrom(l: seq<ServiceInfo>, name: Text, i: nat): (r: seq<ServiceInfo>)
    requires i <= |l|
    ensures |r| <= |l| - i && r == l[i..i + |r|]
    ensures forall j :: i <= j < i + |r| ==> l[j].service == name
    ensures i + |r| < |l| ==> l[i + |r|].service != name
    decreases |l| - i
  {
    match GetAt(l, name, i)
    case Some(e) => [e] + CAnswerFrom(l, name, i + 1)
    case None => []
  }

  function CAnswer(l: seq<ServiceInfo>, name: Text): seq<ServiceInfo> {
    CAnswerFrom(l, name, 0)
  }

  /** The lookups of the C daemon succeed exactly as far as its answer goes. */
  lemma AnswerAt(l: seq<ServiceInfo>, name: Text, i: nat)
    requires i <= |CAnswer(l, name)|
    ensures GetAt(l, name, i) == if i < |CAnswer(l, name)| then Some(CAnswer(l, name)[i]) else None
  {
  }

  /** The Java daemon asks for each index below `count` and skips the lookups that fail. */
  function JavaAnswerFrom(l: seq<ServiceInfo>, name: Text, i: nat, count: nat): seq<ServiceInfo>
    requires i <= count
    decreases count - i
  {
    if i == count then []
    else
      (match GetAt(l, name, i)
       case Some(e) => [e]
       case None => []) + JavaAnswerFrom(l, name, i + 1, count)
  }

  function JavaAnswer(l: seq<ServiceInfo>, name: Text): seq<ServiceInfo> {
    JavaAnswerFrom(l, name, 0, |Matches(l, name)|)
  }

  /** Go allocates one slot per match, but stores a match found at position `i` in slot `i`. */
  function GoSlots(l: seq<ServiceInfo>, name: Text): (slots: seq<Option<ServiceInfo>>) {
    seq(|Matches(l, name)|, i requires 0 <= i => GetAt(l, name, i))
  }

  /** What is written before the first nil slot; dereferencing that slot ends the process. */
  function BeforeNil(slots: seq<Option<ServiceInfo>>): (r: seq<ServiceInfo>)
    ensures |r| <= |slots|
    ensures forall i :: 0 <= i < |r| ==> slots[i] == Some(r[i])
    ensures |r| < |slots| ==> slots[|r|].None?
  {
    if slots == [] || slots[0].None? then [] else [slots[0].value] + BeforeNil(slots[1..])
  }

  predicate GoCrashes(l: seq<ServiceInfo>, name: Text) {
    None in GoSlots(l, name)
  }

  // ---------- filtering ----------

  lemma {:induction false} MatchesConcat(a: seq<ServiceInfo>, b: seq<ServiceInfo>, name: Text)
    ensures Matches(a + b, name) == Matches(a, name) + Matches(b, name)
  {
    if a == [] {
      assert a + b == b;
    } else {
      assert a + b == [a[0]] + (a[1..] + b);
      MatchesConcat(a[1..], b, name);
    }
  }

  lemma MatchesSplit(l: seq<ServiceInfo>, n: nat, name: Text)
    requires n <= |l|
    ensures Matches(l, name) == Matches(l[..n], name) + Matches(l[n..], name)
  {
    assert l == l[..n] + l[n..];
    MatchesConcat(l[..n], l[n..], name);
  }

  /** Filtering keeps the length only when it keeps everything. */
  lemma {:induction false} MatchesAll(l: seq<ServiceInfo>, name: Text)
    requires |Matches(l, name)| == |l| || forall e :: e in l ==> e.service == name
    ensures Matches(l, name) == l
  {
    if l == [] {
    } else {
      MatchesAll(l[1..], name);
    }
  }

  lemma MatchesNone(l: seq<ServiceInfo>, name: Text)
    ensures Matches(l, name) == [] <==> forall e :: e in l ==> e.service != name
  {
    if Matches(l, name) != [] {
      assert Matches(l, name)[0] in Matches(l, name);
    }
  }

  // ---------- what each daemon answers ----------

  lemma CAnswerIsMatches(l: seq<ServiceInfo>, name: Text)
    ensures CAnswer(l, name) == l[..|CAnswer(l, name)|] == Matches(l[..|CAnswer(l, name)|], name)
    ensures |CAnswer(l, name)| <= |Matches(l, name)|
  {
    var m := |CAnswer(l, name)|;
    MatchesAll(l[..m], name);
    MatchesSplit(l, m, name);
  }

  lemma {:induction false} JavaAnswerFromIsMatches(l: seq<ServiceInfo>, name: Text, i: nat, count: nat)
    requires i <= count <= |l|
    ensures JavaAnswerFrom(l, name, i, count) == Matches(l[i..count], name)
    decreases count - i
  {
    if i == count {
    } else {
      JavaAnswerFromIsMatches(l, name, i + 1, count);
      assert l[i..count] == [l[i]] + l[i + 1..count];
    }
  }

  lemma JavaAnswerIsMatches(l: seq<ServiceInfo>, name: Text)
    ensures JavaAnswer(l, name) == Matches(l[..|Matches(l, name)|], name)
  {
    JavaAnswerFromIsMatches(l, name, 0, |Matches(l, name)|);
  }

  lemma {:induction false} BeforeNilUnique(slots: seq<Option<ServiceInfo>>, m: seq<ServiceInfo>)
    requires |m| <= |slots| && forall i :: 0 <= i < |m| ==> slots[i] == Some(m[i])
    requires |m| < |slots| ==> slots[|m|].None?
    ensures BeforeNil(slots) == m
  {
    if m == [] {
    } else {
      BeforeNilUnique(slots[1..], m[1..]);
    }
  }

  /** What Go sends before a nil slot is exactly the run that C sends. */
  lemma GoAnswersTheRun(l: seq<ServiceInfo>, name: Text)
    ensures BeforeNil(GoSlots(l, name)) == CAnswer(l, name)
  {
    CAnswerIsMatches(l, name);
    var slots, m := GoSlots(l, name), CAnswer(l, name);
    assert forall i :: 0 <= i < |m| ==> slots[i] == Some(m[i]);
    assert |m| < |slots| ==> slots[|m|].None?;
    BeforeNilUnique(slots, m);
  }

  /** On one list: C answers a prefix of what Java answers, Java a prefix of the complete answer. */
  lemma PrefixChain(l: seq<ServiceInfo>, name: Text)
    ensures CAnswer(l, name) <= JavaAnswer(l, name) <= Matches(l, name)
    ensures BeforeNil(GoSlots(l, name)) == CAnswer(l, name)
  {
    var m, c := |CAnswer(l, name)|, |Matches(l, name)|;
    CAnswerIsMatches(l, name);
    JavaAnswerIsMatches(l, name);
    MatchesSplit(l[..c], m, name);
    assert l[..c][..m] == l[..m];
    MatchesSplit(l, c, name);
    GoAnswersTheRun(l, name);
  }

  /** No entry with another name stands before an entry with this name. */
  ghost predicate Grouped(l: seq<ServiceInfo>, name: Text) {
    forall i, j :: 0 <= i < j < |l| && l[j].service == name ==> l[i].service == name
  }

  lemma MatchesNoneFrom(l: seq<ServiceInfo>, m: nat, name: Text)
    requires m <= |l|
    ensures Matches(l[m..], name) == [] <==> forall j :: m <= j < |l| ==> l[j].service != name
  {
    MatchesNone(l[m..], name);
    if j :| m <= j < |l| && l[j].service == name {
      assert l[j] == l[m..][j - m] && l[j] in l[m..];
    }
  }

  lemma GroupedByRun(l: seq<ServiceInfo>, name: Text)
    ensures Grouped(l, name) <==> |CAnswer(l, name)| == |Matches(l, name)|
  {
    var m := |CAnswer(l, name)|;
    CAnswerIsMatches(l, name);
    MatchesSplit(l, m, name);
    MatchesNoneFrom(l, m, name);
  }

  /** The run reaches as far as any stretch of matches at the head. */
  lemma RunReaches(l: seq<ServiceInfo>, name: Text, c: nat)
    requires c <= |l| && forall i :: 0 <= i < c ==> l[i].service == name
    ensures |CAnswer(l, name)| >= c
  {
  }

  /** The first `m` entries have the name, and the one after them, if there is one, has not. */
  ghost predicate Leads(l: seq<ServiceInfo>, name: Text, m: nat) {
    && m <= |l|
    && (forall i :: 0 <= i < m ==> l[i].service == name)
    && (m < |l| ==> l[m].service != name)
  }

  lemma AnswerLeads(l: seq<ServiceInfo>, name: Text, m: nat)
    requires Leads(l, name, m)
    ensures CAnswer(l, name) == l[..m]
  {
    RunReaches(l, name, m);
  }

  lemma JavaCompleteIffRun(l: seq<ServiceInfo>, name: Text)
    ensures JavaAnswer(l, name) == Matches(l, name) <==> |CAnswer(l, name)| == |Matches(l, name)|
  {
    var c := |Matches(l, name)|;
    PrefixChain(l, name);
    JavaAnswerIsMatches(l, name);
    if JavaAnswer(l, name) == Matches(l, name) {
      MatchesAll(l[..c], name);
      forall i | 0 <= i < c ensures l[i].service == name {
        assert l[i] == l[..c][i] && l[..c][i] in Matches(l[..c], name);
      }
      RunReaches(l, name, c);
    }
  }

  lemma GoCrashesIffRun(l: seq<ServiceInfo>, name: Text)
    ensures !GoCrashes(l, name) <==> |CAnswer(l, name)| == |Matches(l, name)|
  {
    var slots, c := GoSlots(l, name), |Matches(l, name)|;
    CAnswerIsMatches(l, name);
    if !GoCrashes(l, name) {
      forall i | 0 <= i < c ensures l[i].service == name {
        assert slots[i] in slots;
      }
      RunReaches(l, name, c);
    }
  }

  /** Each daemon gives the complete answer exactly when the matches come first in its list; Go crashes otherwise. */
  lemma CompleteIffGrouped(l: seq<ServiceInfo>, name: Text)
    ensures CAnswer(l, name) == Matches(l, name) <==> Grouped(l, name)
    ensures JavaAnswer(l, name) == Matches(l, name) <==> Grouped(l, name)
    ensures !GoCrashes(l, name) <==> Grouped(l, name)
    ensures !GoCrashes(l, name) ==> BeforeNil(GoSlots(l, name)) == Matches(l, name)
  {
    GroupedByRun(l, name);
    PrefixChain(l, name);
    JavaCompleteIffRun(l, name);
    GoCrashesIffRun(l, name);
  }

  /** With a single service name in the registry every inquiry is answered in full by everyone. */
  lemma OneNameComplete(l: seq<ServiceInfo>, only: Text, name: Text)
    requires forall e :: e in l ==> e.service == only
    ensures CAnswer(l, name) == JavaAnswer(l, name) == Matches(l, name) == BeforeNil(GoSlots(l, name))
    ensures !GoCrashes(l, name)
  {
    CompleteIffGrouped(l, name);
  }

  /** A list and its mirror image both have the matches first only when there is no mixture. */
  lemma MirroredGroups(l: seq<ServiceInfo>, g: seq<ServiceInfo>, name: Text)
    requires |g| == |l| && forall i :: 0 <= i < |l| ==> g[i] == l[|l| - 1 - i]
    ensures Grouped(l, name) && Grouped(g, name)
       <==> forall i, j :: 0 <= i < |l| && 0 <= j < |l| && l[j].service == name ==> l[i].service == name
  {
    var n := |l|;
    if Grouped(l, name) && Grouped(g, name) {
      forall i, j | 0 <= i < n && 0 <= j < n && l[j].service == name ensures l[i].service == name {
        assert g[n - 1 - i] == l[i] && g[n - 1 - j] == l[j];
      }
    }
  }

  lemma UnmixedIffAllOrNone(l: seq<ServiceInfo>, name: Text)
    ensures (forall i, j :: 0 <= i < |l| && 0 <= j < |l| && l[j].service == name ==> l[i].service == name)
       <==> Matches(l, name) == l || Matches(l, name) == []
  {
    MatchesNone(l, name);
    if Matches(l, name) == l {
      forall i | 0 <= i < |l| ensures l[i].service == name {
        assert l[i] in Matches(l, name);
      }
    } else if j :| 0 <= j < |l| && l[j].service == name {
      assert l[j] in Matches(l, name);
      if forall i :: 0 <= i < |l| ==> l[i].service == name {
        MatchesAll(l, name);
      }
    }
  }

  /** After one history, C and Go both answer in full only if the registry holds nothing but matches, or none. */
  lemma BothCompleteAfter(h: seq<Request>, name: Text)
    ensures Grouped(Registry.Run(h), name) && Grouped(Registry.GoRun(h), name)
       <==> Matches(Registry.Run(h), name) == Registry.Run(h) || Matches(Registry.Run(h), name) == []
  {
    var l := Registry.Run(h);
    Registry.GoRegistryMirrors(h);
    MirroredGroups(l, Registry.Reverse(l), name);
    UnmixedIffAllOrNone(l, name);
  }

  /** In terms of the history: no surviving entry with another name was registered before a surviving match. */
  lemma GroupedAfter(h: seq<Request>, name: Text)
    ensures Grouped(Registry.Run(h), name) <==>
            forall a, b :: Registry.RegisteredLast(h, a) && Registry.RegisteredLast(h, b)
                           && a.service != name && b.service == name
                           ==> Registry.LastTouch(h, b.Key()) < Registry.LastTouch(h, a.Key())
  {
    var l := Registry.Run(h);
    Registry.RegistryOrder(h);
    Registry.RunUnique(h);
    forall e ensures e in l <==> Registry.RegisteredLast(h, e) {
      Registry.RegistryMembers(h, e);
    }
    if Grouped(l, name) {
      forall a, b | a in l && b in l && a.service != name && b.service == name
        ensures Registry.LastTouch(h, b.Key()) < Registry.LastTouch(h, a.Key())
      {
        var i :| 0 <= i < |l| && l[i] == a;
        var j :| 0 <= j < |l| && l[j] == b;
        if i < j {
          assert false;
        }
      }
    } else {
      var i, j :| 0 <= i < j < |l| && l[j].service == name && l[i].service != name;
      assert l[i] in l && l[j] in l;
      assert Registry.LastTouch(h, l[i].Key()) < Registry.LastTouch(h, l[j].Key());
    }
  }

  lemma TwoRegistrations(a: ServiceInfo, b: ServiceInfo)
    requires a.Key() != b.Key()
    ensures Registry.Run([Register(a), Register(b)]) == [a, b]
    ensures Registry.GoRun([Register(a), Register(b)]) == [b, a]
  {
    Registry.RunSnoc([], Register(a));
    Registry.RunSnoc([Register(a)], Register(b));
    assert [] + [Register(a)] == [Register(a)];
    assert [Register(a)] + [Register(b)] == [Register(a), Register(b)];
    assert Registry.Run([]) == [] && Registry.GoRun([]) == [];
    assert Registry.RemoveKey([], a.Key()) == [];
    assert Registry.RemoveKey([a], b.Key()) == [a];
  }

  /**
   The shortest failures. A service registered after one of another name is not found by C and Java;
   one registered before it crashes Go.
   */
  lemma MissedExample(other: ServiceInfo, wanted: ServiceInfo)
    requires other.service != wanted.service
    ensures var l := Registry.Run([Register(other), Register(wanted)]);
            wanted in l && CAnswer(l, wanted.service) == [] == JavaAnswer(l, wanted.service)
    ensures GoCrashes(Registry.GoRun([Register(wanted), Register(other)]), wanted.service)
  {
    var l := Registry.Run([Register(other), Register(wanted)]);
    TwoRegistrations(other, wanted);
    assert l == [other, wanted];
    JavaAnswerIsMatches(l, wanted.service);
    assert l[1..] == [wanted] && l[..1] == [other];
    assert |Matches(l, wanted.service)| == 1;
    TwoRegistrations(wanted, other);
    var g := Registry.GoRun([Register(wanted), Register(other)]);
    assert g == [other, wanted];
    assert GoSlots(g, wanted.service)[0] == None;
  }
}
