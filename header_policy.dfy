/**
 The header policy of the edge response function: seven fixed (name, value)
 pairs, the descriptor objects it writes, and the pure meaning of writing them
 into a response's header table.

 A header table is a map from the exact header-name string to its descriptor.
 Names are compared as strings: the function does no case folding, so neither
 does the model.
 */
module HeaderPolicy {

  /** A header descriptor object. `value` is the one field the function writes;
      `otherFields` stands for whatever else the host attached to a descriptor
      (multi-value lists and the like), kept opaque. */
  datatype Descriptor = Descriptor(value: string, otherFields: map<string, string>)

  /** The object literal `{ value: v }`: a new descriptor with no other field. */
  function Fresh(v: string): Descriptor
  {
    Descriptor(v, map[])
  }

  /** The seven assignments, in the order the function performs them. */
  const Policy: seq<(string, string)> := [
    ("strict-transport-security", "max-age=63072000; includeSubdomains; preload"),
    ("content-security-policy", "default-src 'self'; script-src 'self' 'unsafe-inline'; style-src 'self' 'unsafe-inline'; img-src 'self' data: https:; font-src 'self'; connect-src 'self'"),
    ("x-content-type-options", "nosniff"),
    ("x-frame-options", "DENY"),
    ("x-xss-protection", "1; mode=block"),
    ("referrer-policy", "strict-origin-when-cross-origin"),
    ("permissions-policy", "geolocation=(), microphone=(), camera=()")
  ]

  /** The seven header names the function writes, as literals. */
  const ManagedNames: set<string> := {
    "strict-transport-security", "content-security-policy", "x-content-type-options",
    "x-frame-options", "x-xss-protection", "referrer-policy", "permissions-policy" }

  /** The header names a sequence of assignments writes. */
  function Names(ps: seq<(string, string)>): set<string>
  {
    set p | p in ps :: p.0
  }

  /** No two assignments of the sequence write the same name. */
  ghost predicate DistinctNames(ps: seq<(string, string)>)
  {
    forall i, j | 0 <= i < j < |ps| :: ps[i].0 != ps[j].0
  }

  /** No name is given two different values by the sequence (weaker than
      DistinctNames: a repeated identical assignment is allowed). */
  ghost predicate Consistent(ps: seq<(string, string)>)
  {
    forall p, q | p in ps && q in ps && p.0 == q.0 :: p.1 == q.1
  }

  /** The assignment statements `headers[n] = { value: v }`, one after the
      other, in the order of `ps`. Each replaces the old descriptor wholesale. */
  function Assign(h: map<string, Descriptor>, ps: seq<(string, string)>): (r: map<string, Descriptor>)
    ensures h.Keys <= r.Keys
    ensures ps != [] ==> ps[|ps| - 1].0 in r && r[ps[|ps| - 1].0] == Fresh(ps[|ps| - 1].1)
    decreases |ps|
  {
    if ps == [] then h
    else Assign(h[ps[0].0 := Fresh(ps[0].1)], ps[1..])
  }

  /** Reference meaning of a set of assignments, independent of their order:
      the keys afterwards are the keys before plus the assigned names, each
      assigned name holds a fresh descriptor with its value, and every other
      key keeps its old descriptor. */
  ghost predicate Sets(h: map<string, Descriptor>, ps: seq<(string, string)>, r: map<string, Descriptor>)
  {
    && r.Keys == h.Keys + Names(ps)
    && (forall p | p in ps :: p.0 in r && r[p.0] == Fresh(p.1))
    && (forall k | k in h && k !in Names(ps) :: k in r && r[k] == h[k])
  }

  /** What the edge function does to the header table: the seven policy
      assignments in the source order. The result has the order-free
      reference meaning of the policy. */
  function ApplyPolicy(h: map<string, Descriptor>): (r: map<string, Descriptor>)
    ensures Sets(h, Policy, r)
  {
    PolicyConsistent();
    AssignSets(h, Policy);
    Assign(h, Policy)
  }

  /** The seven policy names are pairwise distinct. */
  lemma PolicyNamesDistinct()
    ensures DistinctNames(Policy)
  {
    // The names differ in length, except x-frame-options and
    // referrer-policy, which differ in their first character.
    assert |Policy[0].0| == 25 && |Policy[1].0| == 23 && |Policy[2].0| == 22;
    assert |Policy[3].0| == 15 && |Policy[4].0| == 16 && |Policy[5].0| == 15 && |Policy[6].0| == 18;
    assert Policy[3].0[0] == 'x' && Policy[5].0[0] == 'r';
  }

  /** The managed names are exactly the seven header names the function writes. */
  lemma ManagedNamesAre()
    ensures Names(Policy) == ManagedNames
  {
    NamesWithinLiterals();
    LiteralsWithinNames();
  }

  /** Each of the seven literal names is assigned by the policy. */
  lemma LiteralsWithinNames()
    ensures ManagedNames <= Names(Policy)
  {
    assert Policy[0] in Policy && Policy[1] in Policy && Policy[2] in Policy && Policy[3] in Policy;
    assert Policy[4] in Policy && Policy[5] in Policy && Policy[6] in Policy;
  }

  /** The policy assigns no name beyond the seven literals. */
  lemma NamesWithinLiterals()
    ensures Names(Policy) <= ManagedNames
  {
    assert forall i | 0 <= i < |Policy| :: Policy[i].0 in ManagedNames;
  }

  /** Distinct names make any sequence of assignments consistent. */
  lemma DistinctIsConsistent(ps: seq<(string, string)>)
    requires DistinctNames(ps)
    ensures Consistent(ps)
  {
    forall p, q | p in ps && q in ps && p.0 == q.0 ensures p.1 == q.1 {
      var i :| 0 <= i < |ps| && ps[i] == p;
      var j :| 0 <= j < |ps| && ps[j] == q;
      assert i == j;
    }
  }

  /** The policy never gives one name two values. */
  lemma PolicyConsistent()
    ensures Consistent(Policy)
  {
    PolicyNamesDistinct();
    DistinctIsConsistent(Policy);
  }

  /** Sequential assignment meets the reference meaning whenever no name is
      given two different values. */
  lemma {:induction false} AssignSets(h: map<string, Descriptor>, ps: seq<(string, string)>)
    requires Consistent(ps)
    ensures Sets(h, ps, Assign(h, ps))
    decreases |ps|
  {
    if ps != [] {
      var p, rest := ps[0], ps[1..];
      var h' := h[p.0 := Fresh(p.1)];
      assert forall q | q in rest :: q in ps;
      AssignSets(h', rest);
      var r := Assign(h, ps);
      assert r == Assign(h', rest);
      assert Names(ps) == {p.0} + Names(rest) by {
        assert ps == [p] + rest;
      }
      forall q | q in ps ensures q.0 in r && r[q.0] == Fresh(q.1) {
        if q.0 in Names(rest) {
          var q' :| q' in rest && q'.0 == q.0;
          assert q'.1 == q.1;
        } else {
          assert q !in rest;
          assert q == p;
        }
      }
    }
  }

  /** Sequential assignment only ever adds the assigned names to the keys. */
  lemma {:induction false} AssignKeys(h: map<string, Descriptor>, ps: seq<(string, string)>)
    ensures Assign(h, ps).Keys == h.Keys + Names(ps)
    decreases |ps|
  {
    if ps != [] {
      AssignKeys(h[ps[0].0 := Fresh(ps[0].1)], ps[1..]);
      assert Names(ps) == {ps[0].0} + Names(ps[1..]) by {
        assert ps == [ps[0]] + ps[1..];
      }
    }
  }

  /** Sequential assignment leaves every name it does not assign as it was,
      present or absent. */
  lemma {:induction false} AssignNonInterference(h: map<string, Descriptor>, ps: seq<(string, string)>, k: string)
    ensures k !in Names(ps) ==> (k in Assign(h, ps) <==> k in h)
    ensures k !in Names(ps) && k in h ==> Assign(h, ps)[k] == h[k]
    decreases |ps|
  {
    if ps != [] && k !in Names(ps) {
      assert ps[0] in ps;
      assert forall q | q in ps[1..] :: q in ps;
      AssignNonInterference(h[ps[0].0 := Fresh(ps[0].1)], ps[1..], k);
    }
  }

  /** Sequential assignment is a map union: the old table overridden by the
      table the same assignments build from nothing. */
  lemma {:induction false} AssignIsUnion(h: map<string, Descriptor>, ps: seq<(string, string)>)
    ensures Assign(h, ps) == h + Assign(map[], ps)
    decreases |ps|
  {
    if ps != [] {
      var d := map[ps[0].0 := Fresh(ps[0].1)];
      var rest := Assign(map[], ps[1..]);
      AssignIsUnion(h[ps[0].0 := Fresh(ps[0].1)], ps[1..]);
      AssignIsUnion(d, ps[1..]);
      assert map[][ps[0].0 := Fresh(ps[0].1)] == d;
      assert h[ps[0].0 := Fresh(ps[0].1)] == h + d;
      assert (h + d) + rest == h + (d + rest);
    }
  }

  /** The reference meaning determines the resulting table. */
  lemma SetsDetermines(h: map<string, Descriptor>, ps: seq<(string, string)>, a: map<string, Descriptor>, b: map<string, Descriptor>)
    requires Sets(h, ps, a) && Sets(h, ps, b)
    ensures a == b
  {
    forall k | k in a ensures a[k] == b[k] {
      if k in Names(ps) {
        var p :| p in ps && p.0 == k;
      }
    }
  }

  /** Running the same assignments twice gives the table that running them
      once gives. */
  lemma AssignIdempotent(h: map<string, Descriptor>, ps: seq<(string, string)>)
    ensures Assign(Assign(h, ps), ps) == Assign(h, ps)
  {
    var a := Assign(map[], ps);
    AssignIsUnion(h, ps);
    AssignIsUnion(h + a, ps);
    assert (h + a) + a == h + a;
  }

  /** The result of a run of assignments does not depend on what the assigned
      names held before: two tables that agree on every other name give the
      same result. */
  lemma AssignOverride(h: map<string, Descriptor>, g: map<string, Descriptor>, ps: seq<(string, string)>)
    requires forall k | k !in Names(ps) :: (k in h <==> k in g)
    requires forall k | k !in Names(ps) && k in h && k in g :: h[k] == g[k]
    ensures Assign(h, ps) == Assign(g, ps)
  {
    var a := Assign(map[], ps);
    AssignIsUnion(h, ps);
    AssignIsUnion(g, ps);
    AssignKeys(map[], ps);
    assert (h + a).Keys == (g + a).Keys;
    forall k | k in h + a ensures (h + a)[k] == (g + a)[k] {
      if k !in a {
        assert k !in Names(ps);
      }
    }
  }

  /** Order independence: two sequences of assignments holding the same pairs,
      neither giving a name two values, produce the same table. */
  lemma OrderIndependent(h: map<string, Descriptor>, ps: seq<(string, string)>, qs: seq<(string, string)>)
    requires Consistent(ps)
    requires forall p :: p in ps <==> p in qs
    ensures Assign(h, ps) == Assign(h, qs)
  {
    AssignSets(h, ps);
    AssignSets(h, qs);
    assert Names(ps) == Names(qs);
    SetsDetermines(h, ps, Assign(h, ps), Assign(h, qs));
  }

  /** Any permutation of the seven policy assignments gives the same table as
      the source order. */
  lemma ReorderedPolicy(h: map<string, Descriptor>, ps: seq<(string, string)>)
    requires multiset(ps) == multiset(Policy)
    ensures Assign(h, ps) == ApplyPolicy(h)
  {
    PolicyConsistent();
    assert forall p :: p in ps <==> p in multiset(Policy);
    OrderIndependent(h, Policy, ps);
  }

  /** Each managed name holds exactly its policy literal, in a descriptor with
      no other field, whatever the table held before. */
  lemma PolicyValues(h: map<string, Descriptor>)
    ensures var r := ApplyPolicy(h);
      && r["strict-transport-security"] == Fresh("max-age=63072000; includeSubdomains; preload")
      && r["content-security-policy"] == Fresh("default-src 'self'; script-src 'self' 'unsafe-inline'; style-src 'self' 'unsafe-inline'; img-src 'self' data: https:; font-src 'self'; connect-src 'self'")
      && r["x-content-type-options"] == Fresh("nosniff")
      && r["x-frame-options"] == Fresh("DENY")
      && r["x-xss-protection"] == Fresh("1; mode=block")
      && r["referrer-policy"] == Fresh("strict-origin-when-cross-origin")
      && r["permissions-policy"] == Fresh("geolocation=(), microphone=(), camera=()")
  {
    assert Policy[0] in Policy && Policy[1] in Policy && Policy[2] in Policy && Policy[3] in Policy;
    assert Policy[4] in Policy && Policy[5] in Policy && Policy[6] in Policy;
  }

  /** Completeness: every managed name is present with a non-empty value. */
  lemma Complete(h: map<string, Descriptor>)
    ensures forall n | n in Names(Policy) :: n in ApplyPolicy(h) && ApplyPolicy(h)[n].value != ""
  {
    var r := ApplyPolicy(h);
    PolicyValuesNonEmpty();
    forall n | n in Names(Policy) ensures n in r && r[n].value != "" {
      var p :| p in Policy && p.0 == n;
    }
  }

  /** No policy value is the empty string. */
  lemma PolicyValuesNonEmpty()
    ensures forall p | p in Policy :: p.1 != ""
  {
    assert forall i | 0 <= i < |Policy| :: |Policy[i].1| > 0;
  }

  /** Non-interference: a key outside the managed set is present afterwards
      exactly when it was present before, with the same descriptor. */
  lemma NonInterference(h: map<string, Descriptor>, k: string)
    ensures k !in Names(Policy) ==> (k in ApplyPolicy(h) <==> k in h)
    ensures k !in Names(Policy) && k in h ==> ApplyPolicy(h)[k] == h[k]
  {
    AssignNonInterference(h, Policy, k);
  }

  /** Key-set equation: the keys afterwards are the keys before plus the seven
      managed names. */
  lemma KeySet(h: map<string, Descriptor>)
    ensures ApplyPolicy(h).Keys == h.Keys + Names(Policy)
  {
    AssignKeys(h, Policy);
  }

  /** The seven policy headers as a table: what a response with no headers
      carries after the function. */
  const PolicyTable: map<string, Descriptor> := map[
    "strict-transport-security" := Fresh("max-age=63072000; includeSubdomains; preload"),
    "content-security-policy" := Fresh("default-src 'self'; script-src 'self' 'unsafe-inline'; style-src 'self' 'unsafe-inline'; img-src 'self' data: https:; font-src 'self'; connect-src 'self'"),
    "x-content-type-options" := Fresh("nosniff"),
    "x-frame-options" := Fresh("DENY"),
    "x-xss-protection" := Fresh("1; mode=block"),
    "referrer-policy" := Fresh("strict-origin-when-cross-origin"),
    "permissions-policy" := Fresh("geolocation=(), microphone=(), camera=()")]

  /** The policy table holds exactly the managed names. */
  lemma PolicyTableKeys()
    ensures PolicyTable.Keys == Names(Policy)
  {
    ManagedNamesAre();
  }

  /** The policy table holds each policy pair as a fresh descriptor. */
  lemma PolicyTableValues()
    ensures forall p | p in Policy :: p.0 in PolicyTable && PolicyTable[p.0] == Fresh(p.1)
  {
    forall p | p in Policy ensures p.0 in PolicyTable && PolicyTable[p.0] == Fresh(p.1) {
      var i :| 0 <= i < |Policy| && Policy[i] == p;
    }
  }

  /** The table afterwards is the table before, overridden by the seven
      policy headers: a map union in which the policy side wins. */
  lemma ApplyPolicyIsUnion(h: map<string, Descriptor>)
    ensures ApplyPolicy(h) == h + PolicyTable
  {
    AssignIsUnion(h, Policy);
    EmptyTable();
  }

  /** An empty header table comes out holding exactly the seven policy
      headers with their literal values, and nothing else. */
  lemma EmptyTable()
    ensures ApplyPolicy(map[]) == PolicyTable
    ensures |ApplyPolicy(map[])| == 7
  {
    PolicyTableKeys();
    PolicyTableValues();
    SetsDetermines(map[], Policy, ApplyPolicy(map[]), PolicyTable);
    ManagedNamesAre();
    SevenNames();
  }

  /** The seven literal names are seven different strings. */
  lemma SevenNames()
    ensures |ManagedNames| == 7
  {
  }

  /** Override: the result does not depend on what the managed names held
      before (absent, empty or conflicting): dropping them from the input
      changes nothing. */
  lemma Override(h: map<string, Descriptor>)
    ensures ApplyPolicy(h) == ApplyPolicy(h - Names(Policy))
  {
    AssignOverride(h, h - Names(Policy), Policy);
  }

  /** A conflicting `x-frame-options: SAMEORIGIN`, with extra descriptor fields,
      becomes `DENY` and loses those fields. */
  lemma OverrideFrameOptions(h: map<string, Descriptor>, extra: map<string, string>)
    ensures ApplyPolicy(h["x-frame-options" := Descriptor("SAMEORIGIN", extra)])["x-frame-options"]
         == Fresh("DENY")
  {
    PolicyValues(h["x-frame-options" := Descriptor("SAMEORIGIN", extra)]);
  }

  /** Idempotence: applying the policy twice gives the same table as once. */
  lemma Idempotent(h: map<string, Descriptor>)
    ensures ApplyPolicy(ApplyPolicy(h)) == ApplyPolicy(h)
  {
    AssignIdempotent(h, Policy);
  }
}
