/** The policy section: which fields of a request must be there, and which go into the subject. */
module Policy {
  import opened Wrappers

  datatype Entry = Entry(nid: int, value: string)

  type Name = seq<Entry>

  /** One line of the policy section, `field = requirement`. */
  datatype Item = Item(field: string, requirement: string)

  datatype Fault = UnknownField | Missing | CaLacks | Mismatch | BadRequirement

  datatype Result = Subject(name: Name) | Refused(item: nat, fault: Fault)

  ghost predicate Has(name: Name, nid: int) {
    exists i :: 0 <= i < |name| && name[i].nid == nid
  }

  /** The entries of one field, in order. */
  ghost function Matching(name: Name, nid: int): Name {
    if name == [] then []
    else Matching(name[..|name| - 1], nid) + if name[|name| - 1].nid == nid then [name[|name| - 1]] else []
  }

  /** What the policy asks of one field. */
  ghost predicate Satisfied(requirement: string, nid: int, name: Name, ca: Name) {
    match requirement
    case "optional" => true
    case "supplied" => Has(name, nid)
    case "match" => Has(name, nid) && forall e :: e in name && e.nid == nid ==> e in ca
    case _ => false
  }

  ghost predicate ItemOk(item: Item, nid: string -> Option<int>, name: Name, ca: Name) {
    nid(item.field).Some? && Satisfied(item.requirement, nid(item.field).value, name, ca)
  }

  /** All request entries of each listed field, in policy order. */
  ghost function SubjectOf(policy: seq<Item>, nid: string -> Option<int>, name: Name): Name {
    SubjectUpTo(policy, |policy|, nid, name)
  }

  ghost function SubjectUpTo(policy: seq<Item>, n: nat, nid: string -> Option<int>, name: Name): Name
    requires n <= |policy|
  {
    if n == 0 then []
    else
      var field := nid(policy[n - 1].field);
      SubjectUpTo(policy, n - 1, nid, name) + if field.Some? then Matching(name, field.value) else []
  }

  /** Which complaint about a known field is the right one. */
  ghost predicate FaultIs(fault: Fault, requirement: string, nid: int, name: Name, ca: Name) {
    match fault
    case UnknownField => false
    case BadRequirement => requirement !in {"optional", "supplied", "match"}
    case Missing => requirement in {"supplied", "match"} && !Has(name, nid)
    case CaLacks => requirement == "match" && Has(name, nid) && !Has(ca, nid)
    case Mismatch => requirement == "match" && Has(ca, nid) && exists e :: e in name && e.nid == nid && e !in ca
  }

  /** `X509_NAME_get_index_by_OBJ`: the next entry of the field after position `last`, or -1. */
  method GetIndex(name: Name, nid: int, last: int) returns (j: int)
    requires -1 <= last
    ensures j == -1 || last < j < |name|
    ensures j >= 0 ==> name[j].nid == nid && forall i :: last < i < j ==> name[i].nid != nid
    ensures j < 0 ==> forall i :: last < i < |name| ==> name[i].nid != nid
  {
    j := last + 1;
    while j < |name|
      invariant last < j && forall i :: last < i < j && i < |name| ==> name[i].nid != nid
    {
      if name[j].nid == nid { return; }
      j := j + 1;
    }
    return -1;
  }

  /** The search from `again2:` on, for an entry of the CA name equal to the entry `tne` of the request. */
  method SearchCa(ca: Name, nid: int, tne: Entry) returns (j: int, push: Option<Entry>, fault: Option<Fault>)
    requires tne.nid == nid
    ensures push.Some? ==> push.value == tne && tne in ca && fault.None? && j >= 0
    ensures push.None? ==> tne !in ca && fault == Some(if Has(ca, nid) then Mismatch else CaLacks)
  {
    var last2 := -1;
    while true
      invariant -1 <= last2 < |ca|
      invariant last2 >= 0 ==> ca[last2].nid == nid
      invariant forall i :: 0 <= i <= last2 ==> ca[i] != tne
      decreases |ca| - last2
    {
      j := GetIndex(ca, nid, last2);
      if j < 0 && last2 == -1 { return j, None, Some(CaLacks); }
      if j >= 0 {
        push := Some(ca[j]);
        last2 := j;
        if tne.value != push.value.value { continue; }
      }
      if j < 0 { return j, None, Some(Mismatch); }
      return j, push, None;
    }
  }

  lemma MatchingStep(name: Name, nid: int, last: int, j: int)
    requires -1 <= last <= j < |name| && forall i :: last < i < j ==> name[i].nid != nid
    ensures last < j ==> Matching(name[..j + 1], nid) ==
                         Matching(name[..last + 1], nid) + if name[j].nid == nid then [name[j]] else []
    decreases j - last
  {
    if last == j {
    } else {
      assert name[..j + 1][..j] == name[..j];
      if last < j - 1 {
        MatchingStep(name, nid, last, j - 1);
        assert name[j - 1].nid != nid;
      }
    }
  }

  lemma MatchingRest(name: Name, nid: int, last: int)
    requires -1 <= last < |name| && forall i :: last < i < |name| ==> name[i].nid != nid
    ensures Matching(name, nid) == Matching(name[..last + 1], nid)
  {
    assert name[..|name|] == name;
    if last < |name| - 1 { MatchingStep(name, nid, last, |name| - 1); }
  }

  lemma MatchingNone(name: Name, nid: int)
    requires !Has(name, nid)
    ensures Matching(name, nid) == []
  {
  }

  /** The loop over the entries of one field; `j` is used for the search in the CA name as well. */
  method OneField(requirement: string, nid: int, name: Name, ca: Name, subject: Name)
    returns (fault: Option<Fault>, longer: Name)
    ensures fault.None? <==> Satisfied(requirement, nid, name, ca)
    ensures fault.None? ==> longer == subject + Matching(name, nid)
    ensures fault.Some? ==> FaultIs(fault.value, requirement, nid, name, ca)
  {
    longer := subject;
    var last := -1;
    while true
      invariant -1 <= last < |name|
      invariant last >= 0 ==> name[last].nid == nid && requirement in {"optional", "supplied", "match"}
      invariant longer == subject + Matching(name[..last + 1], nid)
      invariant requirement == "match" ==> forall i :: 0 <= i <= last && name[i].nid == nid ==> name[i] in ca
      decreases |name| - last
    {
      var j := GetIndex(name, nid, last);
      var tne := None;
      if j < 0 {
        if last != -1 { break; }
      } else {
        tne := Some(name[j]);
      }
      ghost var before := last;
      last := j;
      var push := None;
      if requirement == "optional" {
        if tne.Some? { push := tne; }
      } else if requirement == "supplied" {
        if tne.None? { return Some(Missing), longer; }
        push := tne;
      } else if requirement == "match" {
        if tne.None? { return Some(Missing), longer; }
        j, push, fault := SearchCa(ca, nid, tne.value);
        if fault.Some? {
          assert tne.value in name;
          return;
        }
      } else {
        return Some(BadRequirement), longer;
      }
      if push.Some? {
        MatchingStep(name, nid, before, last);
        longer := longer + [push.value];
      }
      if j < 0 { break; }
    }
    if last == -1 {
      MatchingNone(name, nid);
      assert name[..0] == [];
    } else {
      MatchingRest(name, nid, last);
    }
    fault := None;
  }

  /**
   * The policy check. It succeeds exactly when every listed field satisfies its requirement, and then yields all
   * request entries of the listed fields in policy order; otherwise it names the first field that does not.
   */
  method Check(policy: seq<Item>, nid: string -> Option<int>, name: Name, ca: Name) returns (r: Result)
    ensures r.Subject? <==> forall i :: 0 <= i < |policy| ==> ItemOk(policy[i], nid, name, ca)
    ensures r.Subject? ==> r.name == SubjectOf(policy, nid, name)
    ensures r.Refused? ==> r.item < |policy| && forall i :: 0 <= i < r.item ==> ItemOk(policy[i], nid, name, ca)
    ensures r.Refused? ==> var n := nid(policy[r.item].field);
      if n.None? then r.fault == UnknownField else FaultIs(r.fault, policy[r.item].requirement, n.value, name, ca)
  {
    var subject: Name := [];
    var i := 0;
    while i < |policy|
      invariant i <= |policy| && forall k :: 0 <= k < i ==> ItemOk(policy[k], nid, name, ca)
      invariant subject == SubjectUpTo(policy, i, nid, name)
    {
      var n := nid(policy[i].field);
      if n.None? { return Refused(i, UnknownField); }
      var fault;
      fault, subject := OneField(policy[i].requirement, n.value, name, ca, subject);
      if fault.Some? { return Refused(i, fault.value); }
      i := i + 1;
    }
    return Subject(subject);
  }

  lemma {:induction false} MatchingMembers(name: Name, nid: int, e: Entry)
    ensures e in Matching(name, nid) <==> e in name && e.nid == nid
  {
    if name == [] {
    } else {
      MatchingMembers(name[..|name| - 1], nid, e);
      assert name == name[..|name| - 1] + [name[|name| - 1]];
    }
  }

  ghost predicate Listed(policy: seq<Item>, n: nat, nid: string -> Option<int>, field: int)
    requires n <= |policy|
  {
    exists i :: 0 <= i < n && nid(policy[i].field) == Some(field)
  }

  lemma ListedStep(policy: seq<Item>, n: nat, nid: string -> Option<int>, field: int)
    requires n < |policy|
    ensures Listed(policy, n + 1, nid, field) <==> Listed(policy, n, nid, field) || nid(policy[n].field) == Some(field)
  {
  }

  lemma MembersStep(policy: seq<Item>, n: nat, nid: string -> Option<int>, name: Name, e: Entry)
    requires n < |policy|
    ensures e in SubjectUpTo(policy, n + 1, nid, name) <==>
      e in SubjectUpTo(policy, n, nid, name) || (e in name && nid(policy[n].field) == Some(e.nid))
  {
    var field, before := nid(policy[n].field), SubjectUpTo(policy, n, nid, name);
    if field.None? {
      assert SubjectUpTo(policy, n + 1, nid, name) == before;
    } else {
      MatchingMembers(name, field.value, e);
      assert SubjectUpTo(policy, n + 1, nid, name) == before + Matching(name, field.value);
    }
  }

  lemma {:induction false} MembersUpTo(policy: seq<Item>, n: nat, nid: string -> Option<int>, name: Name, e: Entry)
    requires n <= |policy|
    ensures e in SubjectUpTo(policy, n, nid, name) <==> e in name && Listed(policy, n, nid, e.nid)
  {
    if n == 0 {
    } else {
      MembersUpTo(policy, n - 1, nid, name, e);
      MembersStep(policy, n - 1, nid, name, e);
      ListedStep(policy, n - 1, nid, e.nid);
    }
  }

  /** The subject holds exactly the request entries whose field the policy lists. */
  lemma SubjectMembers(policy: seq<Item>, nid: string -> Option<int>, name: Name, e: Entry)
    ensures e in SubjectOf(policy, nid, name) <==>
      e in name && exists i :: 0 <= i < |policy| && nid(policy[i].field) == Some(e.nid)
  {
    MembersUpTo(policy, |policy|, nid, name, e);
  }

  // ---- the order of the subject, and what each requirement asks ----

  lemma {:induction false} MatchingJoin(a: Name, b: Name, nid: int)
    ensures Matching(a + b, nid) == Matching(a, nid) + Matching(b, nid)
    decreases |b|
  {
    if b == [] {
      assert a + b == a;
    } else {
      var n := |b| - 1;
      MatchingJoin(a, b[..n], nid);
      assert (a + b)[..|a + b| - 1] == a + b[..n];
      Associate(Matching(a, nid), Matching(b[..n], nid), if b[n].nid == nid then [b[n]] else []);
    }
  }

  /** The subject follows the order of the policy: that of one policy after another is one subject after the other. */
  lemma {:induction false} SubjectJoin(a: seq<Item>, b: seq<Item>, nid: string -> Option<int>, name: Name)
    ensures SubjectOf(a + b, nid, name) == SubjectOf(a, nid, name) + SubjectOf(b, nid, name)
    decreases |b|
  {
    if b == [] {
      assert a + b == a;
    } else {
      var n := |b| - 1;
      SubjectJoin(a, b[..n], nid, name);
      SubjectSame(a + b, a + b[..n], |a| + n, nid, name);
      SubjectSame(b, b[..n], n, nid, name);
      var field := nid(b[n].field);
      Associate(SubjectOf(a, nid, name), SubjectOf(b[..n], nid, name),
                if field.Some? then Matching(name, field.value) else []);
    }
  }

  /** A single line contributes all the request's entries of its field, in their order, or nothing. */
  lemma SubjectOfOne(item: Item, nid: string -> Option<int>, name: Name)
    ensures SubjectOf([item], nid, name) ==
      match nid(item.field) case None => [] case Some(field) => Matching(name, field)
  {
    assert SubjectUpTo([item], 0, nid, name) == [];
  }

  lemma {:induction false} SubjectSame(
      a: seq<Item>, b: seq<Item>, n: nat, nid: string -> Option<int>, name: Name)
    requires n <= |a| && n <= |b| && a[..n] == b[..n]
    ensures SubjectUpTo(a, n, nid, name) == SubjectUpTo(b, n, nid, name)
  {
    if n == 0 {
    } else {
      assert a[..n - 1] == a[..n][..n - 1] == b[..n][..n - 1] == b[..n - 1];
      assert a[n - 1] == a[..n][n - 1] == b[..n][n - 1] == b[n - 1];
      SubjectSame(a, b, n - 1, nid, name);
    }
  }

  /** "optional" asks nothing, "supplied" an entry, "match" one that the CA has too; nothing else is a requirement. */
  lemma RequirementLaws(word: string, nid: int, name: Name, ca: Name, e: Entry)
    requires e.nid == nid && !Has(name, nid)
    ensures Satisfied("optional", nid, name, ca)
    ensures !Satisfied("supplied", nid, name, ca) && Satisfied("supplied", nid, name + [e], ca)
    ensures !Satisfied("match", nid, name, ca) && (Satisfied("match", nid, name + [e], ca) <==> e in ca)
    ensures word !in {"optional", "supplied", "match"} ==> !Satisfied(word, nid, name + [e], ca + [e])
  {
    assert (name + [e])[|name|] == e;
    assert forall x :: x in name + [e] && x.nid == nid ==> x == e;
  }

  // ---- the e-mail address ----

  ghost function WithoutField(name: Name, nid: int): Name {
    if name == [] then []
    else (if name[0].nid == nid then [] else [name[0]]) + WithoutField(name[1..], nid)
  }

  lemma {:induction false} DeleteOne(name: Name, nid: int, i: nat)
    requires i < |name| && name[i].nid == nid
    ensures WithoutField(name[..i] + name[i + 1..], nid) == WithoutField(name, nid)
  {
    var less := name[..i] + name[i + 1..];
    if i == 0 {
      assert less == name[1..];
    } else {
      DeleteOne(name[1..], nid, i - 1);
      assert less[1..] == name[1..][..i - 1] + name[1..][i..];
    }
  }

  lemma {:induction false} NothingToDelete(name: Name, nid: int)
    requires forall i :: 0 <= i < |name| ==> name[i].nid != nid
    ensures WithoutField(name, nid) == name
  {
    if name == [] {
    } else {
      NothingToDelete(name[1..], nid);
      assert [name[0]] + name[1..] == name;
    }
  }

  /** The loop that deletes every e-mail address from the copy of the subject that is stored and signed. */
  method RemoveField(name: Name, nid: int) returns (r: Name)
    ensures r == WithoutField(name, nid)
  {
    r := name;
    var i := GetIndex(r, nid, -1);
    while i >= 0
      invariant -1 <= i < |r| && (i >= 0 ==> r[i].nid == nid)
      invariant i < 0 ==> forall k :: 0 <= k < |r| ==> r[k].nid != nid
      invariant WithoutField(r, nid) == WithoutField(name, nid)
      decreases |r|
    {
      DeleteOne(r, nid, i);
      r := r[..i] + r[i + 1..];
      i := GetIndex(r, nid, -1);
    }
    NothingToDelete(r, nid);
  }
}
