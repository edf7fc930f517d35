/** Injecting secrets into every string of a JSON value (`walk` in
    `crates/core/src/secretbroker.rs`). */
module SecretInjection {
  import opened Basics
  import opened SecretBroker

  /** A JSON value as the walk sees it: numbers, booleans and null are all left alone. */
  datatype Value = Scalar(text: string) | Str(s: string) | Arr(items: seq<Value>) | Obj(members: seq<Member>)

  datatype Member = Member(key: string, value: Value)

  /** The closed handles of a value's strings, in the order of the walk. */
  function Handles(v: Value): seq<string>
    decreases v, 0
  {
    match v
    case Scalar(_) => []
    case Str(s) => Names(Tokens(s, OPEN, CLOSE))
    case Arr(items) => ItemHandles(items, |items|)
    case Obj(members) => MemberHandles(members, |members|)
  }

  function ItemHandles(items: seq<Value>, n: nat): seq<string>
    requires n <= |items|
    decreases items, n
  {
    if n == 0 then [] else ItemHandles(items, n - 1) + Handles(items[n - 1])
  }

  function MemberHandles(members: seq<Member>, n: nat): seq<string>
    requires n <= |members|
    decreases members, n
  {
    if n == 0 then [] else MemberHandles(members, n - 1) + Handles(members[n - 1].value)
  }

  /** The value with every known handle replaced; keys and structure stay. */
  function Filled(v: Value, vault: Vault): Value
    decreases v, 0
  {
    match v
    case Scalar(_) => v
    case Str(s) => Str(Render(Tokens(s, OPEN, CLOSE), vault, OPEN, CLOSE))
    case Arr(items) => Arr(FilledItems(items, |items|, vault))
    case Obj(members) => Obj(FilledMembers(members, |members|, vault))
  }

  function FilledItems(items: seq<Value>, n: nat, vault: Vault): seq<Value>
    requires n <= |items|
    decreases items, n
  {
    if n == 0 then [] else FilledItems(items, n - 1, vault) + [Filled(items[n - 1], vault)]
  }

  function FilledMembers(members: seq<Member>, n: nat, vault: Vault): seq<Member>
    requires n <= |members|
    decreases members, n
  {
    if n == 0 then []
    else FilledMembers(members, n - 1, vault) + [Member(members[n - 1].key, Filled(members[n - 1].value, vault))]
  }

  /** `w` is `v` with the known handles of every string replaced, and nothing else
      touched: keys, order, numbers and the shape are those of `v`. */
  ghost predicate Injected(v: Value, w: Value, vault: Vault) {
    match (v, w)
    case (Scalar(a), Scalar(b)) => a == b
    case (Str(s), Str(t)) => Substituted(s, t, vault, "{{secret:", "}}")
    case (Arr(a), Arr(b)) => |a| == |b| && forall i :: 0 <= i < |a| ==> Injected(a[i], b[i], vault)
    case (Obj(a), Obj(b)) =>
      |a| == |b| && forall i :: 0 <= i < |a| ==> a[i].key == b[i].key && Injected(a[i].value, b[i].value, vault)
    case _ => false
  }

  lemma {:induction false} KnownOfConcat(a: seq<string>, b: seq<string>, vault: Vault)
    ensures Known(a + b, vault) == Known(a, vault) + Known(b, vault)
  {
    if a == [] {
      assert a + b == b;
    } else {
      KnownOfConcat(a[1..], b, vault);
      assert (a + b)[1..] == a[1..] + b;
    }
  }

  lemma {:induction false} UnknownOfConcat(a: seq<string>, b: seq<string>, vault: Vault)
    ensures Unknown(a + b, vault) == Unknown(a, vault) + Unknown(b, vault)
  {
    if a == [] {
      assert a + b == b;
    } else {
      UnknownOfConcat(a[1..], b, vault);
      assert (a + b)[1..] == a[1..] + b && (a + b)[0] == a[0];
      assert a[0] !in vault ==> [a[0]] + (Unknown(a[1..], vault) + Unknown(b, vault)) == Unknown(a, vault) + Unknown(b, vault);
    }
  }

  lemma ReportedInTurn(inj: Injection, a: seq<string>, b: seq<string>, vault: Vault)
    ensures Reported(Reported(inj, a, vault), b, vault) == Reported(inj, a + b, vault)
  {
    KnownOfConcat(a, b, vault);
    UnknownOfConcat(a, b, vault);
    assert inj.missing + (Unknown(a, vault) + Unknown(b, vault)) == inj.missing + Unknown(a, vault) + Unknown(b, vault);
  }

  method Walk(v: Value, vault: Vault, start: Injection) returns (w: Value, inj: Injection)
    ensures w == Filled(v, vault) && inj == Reported(start, Handles(v), vault)
    decreases v, 0
  {
    match v {
      case Scalar(_) =>
        w, inj := v, start;
      case Str(s) =>
        if Find(s, OPEN).Some? {
          var text, report := ReplaceHandles(s, vault, start);
          w, inj := Str(text), report;
        } else {
          SplitOnceIsFind(s, OPEN);
          w, inj := v, start;
        }
      case Arr(items) =>
        var out, report := WalkItems(items, vault, start);
        w, inj := Arr(out), report;
      case Obj(members) =>
        var out, report := WalkMembers(members, vault, start);
        w, inj := Obj(out), report;
    }
  }

  method WalkItems(items: seq<Value>, vault: Vault, start: Injection) returns (out: seq<Value>, inj: Injection)
    ensures out == FilledItems(items, |items|, vault) && inj == Reported(start, ItemHandles(items, |items|), vault)
    decreases items, |items| + 1
  {
    out, inj := [], start;
    for i := 0 to |items|
      invariant out == FilledItems(items, i, vault) && inj == Reported(start, ItemHandles(items, i), vault)
    {
      var w, report := Walk(items[i], vault, inj);
      ReportedInTurn(start, ItemHandles(items, i), Handles(items[i]), vault);
      out, inj := out + [w], report;
    }
  }

  method WalkMembers(members: seq<Member>, vault: Vault, start: Injection) returns (out: seq<Member>, inj: Injection)
    ensures out == FilledMembers(members, |members|, vault) && inj == Reported(start, MemberHandles(members, |members|), vault)
    decreases members, |members| + 1
  {
    out, inj := [], start;
    for i := 0 to |members|
      invariant out == FilledMembers(members, i, vault) && inj == Reported(start, MemberHandles(members, i), vault)
    {
      var w, report := Walk(members[i].value, vault, inj);
      ReportedInTurn(start, MemberHandles(members, i), Handles(members[i].value), vault);
      out, inj := out + [Member(members[i].key, w)], report;
    }
  }

  lemma {:induction false} FilledItemsAt(items: seq<Value>, n: nat, vault: Vault)
    requires n <= |items|
    ensures |FilledItems(items, n, vault)| == n
    ensures forall i :: 0 <= i < n ==> FilledItems(items, n, vault)[i] == Filled(items[i], vault)
  {
    if n > 0 {
      FilledItemsAt(items, n - 1, vault);
    }
  }

  lemma {:induction false} FilledMembersAt(members: seq<Member>, n: nat, vault: Vault)
    requires n <= |members|
    ensures |FilledMembers(members, n, vault)| == n
    ensures forall i :: 0 <= i < n ==> FilledMembers(members, n, vault)[i] == Member(members[i].key, Filled(members[i].value, vault))
  {
    if n > 0 {
      FilledMembersAt(members, n - 1, vault);
    }
  }

  lemma {:induction false} FilledIsInjected(v: Value, vault: Vault)
    ensures Injected(v, Filled(v, vault), vault)
  {
    match v
    case Scalar(_) =>
    case Str(s) => RenderSubstitutes(s, vault, OPEN, CLOSE);
    case Arr(items) =>
      FilledItemsAt(items, |items|, vault);
      forall i | 0 <= i < |items|
        ensures Injected(items[i], Filled(items[i], vault), vault)
      {
        FilledIsInjected(items[i], vault);
      }
    case Obj(members) =>
      FilledMembersAt(members, |members|, vault);
      forall i | 0 <= i < |members|
        ensures Injected(members[i].value, Filled(members[i].value, vault), vault)
      {
        FilledIsInjected(members[i].value, vault);
      }
  }

  /** `inject_secrets`: every closed handle of the value is either replaced or reported. */
  method InjectSecrets(v: Value, vault: Vault) returns (w: Value, inj: Injection)
    ensures w == Filled(v, vault) && Injected(v, w, vault)
    ensures inj.replaced + |inj.missing| == |Handles(v)|
    ensures forall n :: n in inj.missing <==> n in Handles(v) && n !in vault
  {
    FilledIsInjected(v, vault);
    w, inj := Walk(v, vault, Injection(0, []));
    EveryHandleIsAccountedFor(Handles(v), vault);
    assert [] + Unknown(Handles(v), vault) == Unknown(Handles(v), vault);
  }

  /** A value none of whose handles the vault knows comes back unchanged. */
  lemma {:induction false} UnknownHandlesChangeNothing(v: Value, vault: Vault)
    requires forall n :: n in Handles(v) ==> n !in vault
    ensures Filled(v, vault) == v
    decreases v, 0
  {
    match v
    case Scalar(_) =>
    case Str(s) =>
      NothingKnownNothingChanged(Tokens(s, OPEN, CLOSE), vault, OPEN, CLOSE);
      TokensShowTheText(s, OPEN, CLOSE);
    case Arr(items) =>
      UnknownItemsChangeNothing(items, |items|, vault);
      assert items[..|items|] == items;
    case Obj(members) =>
      UnknownMembersChangeNothing(members, |members|, vault);
      assert members[..|members|] == members;
  }

  lemma {:induction false} UnknownItemsChangeNothing(items: seq<Value>, n: nat, vault: Vault)
    requires n <= |items| && forall h :: h in ItemHandles(items, n) ==> h !in vault
    ensures FilledItems(items, n, vault) == items[..n]
    decreases items, n
  {
    if n > 0 {
      UnknownItemsChangeNothing(items, n - 1, vault);
      UnknownHandlesChangeNothing(items[n - 1], vault);
      assert items[..n] == items[..n - 1] + [items[n - 1]];
    }
  }

  lemma {:induction false} UnknownMembersChangeNothing(members: seq<Member>, n: nat, vault: Vault)
    requires n <= |members| && forall h :: h in MemberHandles(members, n) ==> h !in vault
    ensures FilledMembers(members, n, vault) == members[..n]
    decreases members, n
  {
    if n > 0 {
      UnknownMembersChangeNothing(members, n - 1, vault);
      UnknownHandlesChangeNothing(members[n - 1].value, vault);
      assert members[..n] == members[..n - 1] + [members[n - 1]];
    }
  }
}
