/**
 * Reference tokens in argument trees and the structural rewrite that
 * resolves them.
 *
 * A string leaf whose first character is `$` names an entry of the scalar
 * table and one whose first character is `@` names an already built
 * service. Lists are walked element by element and dicts value by value;
 * containers and dict keys are never references themselves.
 */
module References {
  import opened Values

  const ScalarSigil: char := '$'
  const ServiceSigil: char := '@'

  /** `s[:1] == sigil`: the empty string carries no sigil. */
  predicate HasSigil(s: string, sigil: char)
  {
    |s| > 0 && s[0] == sigil
  }

  /** `is_arg_scalar`: `$` followed by a name, possibly empty; never both a scalar and a service. */
  predicate IsArgScalar(s: string): (b: bool)
    ensures b <==> exists name :: s == [ScalarSigil] + name
    ensures b ==> !IsArgService(s)
  {
    assert HasSigil(s, ScalarSigil) ==> s == [ScalarSigil] + s[1..];
    HasSigil(s, ScalarSigil)
  }

  /** `is_arg_service`: `@` followed by a name, possibly empty. */
  predicate IsArgService(s: string): (b: bool)
    ensures b <==> exists name :: s == [ServiceSigil] + name
  {
    assert HasSigil(s, ServiceSigil) ==> s == [ServiceSigil] + s[1..];
    HasSigil(s, ServiceSigil)
  }

  /** `is_dependency_name`: only a string can name a dependency. */
  predicate IsDependencyName(v: Value): (b: bool)
    ensures b <==> v.Str? && exists name :: v.s == [ServiceSigil] + name
    ensures b ==> v != Str("")
  {
    v.Str? && IsArgService(v.s)
  }

  /**
   * The names referenced with `sigil` by the string leaves of `v`, reached
   * through list elements and dict values.
   */
  function RefNames(v: Value, sigil: char): set<string>
  {
    match v
    case Str(s) => if HasSigil(s, sigil) then {s[1..]} else {}
    case List(items) => set i, n | 0 <= i < |items| && n in RefNames(items[i], sigil) :: n
    case Dict(m) => set k, n | k in m && n in RefNames(m[k], sigil) :: n
    case _ => {}
  }

  /** `v` has the string `s` as a leaf, reached through list elements and dict values (never dict keys). */
  ghost predicate HasLeaf(v: Value, s: string)
  {
    match v
    case Str(t) => t == s
    case List(items) => exists i :: 0 <= i < |items| && HasLeaf(items[i], s)
    case Dict(m) => exists k :: k in m && HasLeaf(m[k], s)
    case _ => false
  }

  /** The names `RefNames` collects are exactly the sigil-stripped leaves that carry the sigil. */
  lemma {:induction false} RefNamesAreLeaves(v: Value, sigil: char, name: string)
    ensures name in RefNames(v, sigil) <==> HasLeaf(v, [sigil] + name)
    decreases v
  {
    match v
    case Str(s) =>
      if HasSigil(s, sigil) {
        assert s == [sigil] + s[1..];
      }
    case List(items) =>
      forall i | 0 <= i < |items|
        ensures name in RefNames(items[i], sigil) <==> HasLeaf(items[i], [sigil] + name)
      {
        RefNamesAreLeaves(items[i], sigil, name);
      }
      if HasLeaf(v, [sigil] + name) {
        var i :| 0 <= i < |items| && HasLeaf(items[i], [sigil] + name);
        assert name in RefNames(items[i], sigil);
      }
    case Dict(m) =>
      forall k | k in m
        ensures name in RefNames(m[k], sigil) <==> HasLeaf(m[k], [sigil] + name)
      {
        RefNamesAreLeaves(m[k], sigil, name);
      }
      if HasLeaf(v, [sigil] + name) {
        var k :| k in m && HasLeaf(m[k], [sigil] + name);
        assert name in RefNames(m[k], sigil);
      }
    case _ =>
  }

  /** One table per sigil: `$` maps to the scalar table, `@` to the built services. */
  type Tables = map<char, map<string, Value>>

  /** Every reference of `v` to a sigil of `tables` has an entry there. */
  predicate Resolvable(v: Value, tables: Tables)
  {
    forall c :: c in tables ==> RefNames(v, c) <= tables[c].Keys
  }

  /**
   * `w` is `v` with its references resolved: lists keep their length and
   * order, dicts keep exactly their keys, a reference leaf becomes its table
   * entry and every other leaf stays as it is.
   */
  ghost predicate RewritesTo(v: Value, w: Value, tables: Tables)
  {
    match v
    case Str(s) =>
      if |s| > 0 && s[0] in tables then s[1..] in tables[s[0]] && w == tables[s[0]][s[1..]]
      else w == v
    case List(items) =>
      && w.List?
      && |w.items| == |items|
      && forall i :: 0 <= i < |items| ==> RewritesTo(items[i], w.items[i], tables)
    case Dict(m) =>
      && w.Dict?
      && w.entries.Keys == m.Keys
      && forall k :: k in m ==> RewritesTo(m[k], w.entries[k], tables)
    case _ => w == v
  }

  /**
   * The substitution pass shared by `_replace_scalars_in_args/kwargs` and
   * `_replace_services_in_args/kwargs`: `None` when some reference has no
   * table entry (the source raises there).
   */
  function Rewrite(v: Value, tables: Tables): (r: Option<Value>)
    ensures r.Some? <==> Resolvable(v, tables)
    ensures r.Some? ==> RewritesTo(v, r.value, tables)
    ensures r.Some? && v.List? ==> r.value.List? && |r.value.items| == |v.items|
    ensures r.Some? && v.Dict? ==> r.value.Dict? && r.value.entries.Keys == v.entries.Keys
  {
    match v
    case Str(s) =>
      if |s| > 0 && s[0] in tables then
        if s[1..] in tables[s[0]] then Some(tables[s[0]][s[1..]]) else None
      else Some(v)
    case List(items) =>
      if forall i | 0 <= i < |items| :: Rewrite(items[i], tables).Some? then
        Some(List(seq(|items|, i requires 0 <= i < |items| => Rewrite(items[i], tables).value)))
      else None
    case Dict(m) =>
      if forall k | k in m :: Rewrite(m[k], tables).Some? then
        Some(Dict(map k | k in m :: Rewrite(m[k], tables).value))
      else None
    case _ => Some(v)
  }

  /** The relation pins the rewrite down: whatever `v` rewrites to is what `Rewrite` returns. */
  lemma {:induction false} RewritesToUnique(v: Value, w: Value, tables: Tables)
    requires RewritesTo(v, w, tables)
    ensures Rewrite(v, tables) == Some(w)
    decreases v
  {
    match v
    case Str(s) =>
    case List(items) =>
      forall i | 0 <= i < |items|
        ensures Rewrite(items[i], tables) == Some(w.items[i])
      {
        RewritesToUnique(items[i], w.items[i], tables);
      }
      assert Rewrite(v, tables).value.items == w.items;
    case Dict(m) =>
      forall k | k in m
        ensures Rewrite(m[k], tables) == Some(w.entries[k])
      {
        RewritesToUnique(m[k], w.entries[k], tables);
      }
      assert Rewrite(v, tables).value.entries == w.entries;
    case _ =>
  }

  /** A tree without references to the tables' sigils comes back unchanged. */
  lemma {:induction false} RewriteWithoutReferences(v: Value, tables: Tables)
    requires forall c :: c in tables ==> RefNames(v, c) == {}
    ensures Rewrite(v, tables) == Some(v)
    decreases v
  {
    match v
    case Str(s) =>
    case List(items) =>
      forall i | 0 <= i < |items|
        ensures Rewrite(items[i], tables) == Some(items[i])
      {
        forall c | c in tables
          ensures RefNames(items[i], c) == {}
        {
          assert RefNames(items[i], c) <= RefNames(v, c);
        }
        RewriteWithoutReferences(items[i], tables);
      }
      assert Rewrite(v, tables).value.items == items;
    case Dict(m) =>
      forall k | k in m
        ensures Rewrite(m[k], tables) == Some(m[k])
      {
        forall c | c in tables
          ensures RefNames(m[k], c) == {}
        {
          assert RefNames(m[k], c) <= RefNames(v, c);
        }
        RewriteWithoutReferences(m[k], tables);
      }
      assert Rewrite(v, tables).value.entries == m;
    case _ =>
  }

  /** The `sigil` references of the tables' values. */
  function TableRefs(tables: Tables, sigil: char): set<string>
  {
    set c, n, x | c in tables && n in tables[c] && x in RefNames(tables[c][n], sigil) :: x
  }

  /**
   * Which references survive a rewrite: those of a sigil the tables do not
   * handle are kept, and the only new ones come from the substituted values.
   */
  lemma {:induction false} RefNamesAfterRewrite(v: Value, w: Value, tables: Tables, sigil: char)
    requires RewritesTo(v, w, tables)
    ensures sigil !in tables ==> RefNames(v, sigil) <= RefNames(w, sigil)
    ensures RefNames(w, sigil) <= (if sigil in tables then {} else RefNames(v, sigil)) + TableRefs(tables, sigil)
    decreases v
  {
    match v
    case Str(s) =>
      if |s| > 0 && s[0] in tables {
        var x := tables[s[0]][s[1..]];
        forall n | n in RefNames(w, sigil)
          ensures n in TableRefs(tables, sigil)
        {
          assert n in RefNames(tables[s[0]][s[1..]], sigil);
        }
      }
    case List(items) =>
      forall i | 0 <= i < |items|
        ensures sigil !in tables ==> RefNames(items[i], sigil) <= RefNames(w.items[i], sigil)
        ensures RefNames(w.items[i], sigil) <= (if sigil in tables then {} else RefNames(items[i], sigil)) + TableRefs(tables, sigil)
      {
        RefNamesAfterRewrite(items[i], w.items[i], tables, sigil);
      }
      forall n | n in RefNames(w, sigil)
        ensures n in (if sigil in tables then {} else RefNames(v, sigil)) + TableRefs(tables, sigil)
      {
        var i :| 0 <= i < |w.items| && n in RefNames(w.items[i], sigil);
        assert n in RefNames(w.items[i], sigil);
      }
      if sigil !in tables {
        forall n | n in RefNames(v, sigil)
          ensures n in RefNames(w, sigil)
        {
          var i :| 0 <= i < |items| && n in RefNames(items[i], sigil);
          assert n in RefNames(w.items[i], sigil);
        }
      }
    case Dict(m) =>
      forall k | k in m
        ensures sigil !in tables ==> RefNames(m[k], sigil) <= RefNames(w.entries[k], sigil)
        ensures RefNames(w.entries[k], sigil) <= (if sigil in tables then {} else RefNames(m[k], sigil)) + TableRefs(tables, sigil)
      {
        RefNamesAfterRewrite(m[k], w.entries[k], tables, sigil);
      }
      forall n | n in RefNames(w, sigil)
        ensures n in (if sigil in tables then {} else RefNames(v, sigil)) + TableRefs(tables, sigil)
      {
        var k :| k in w.entries && n in RefNames(w.entries[k], sigil);
        assert n in RefNames(w.entries[k], sigil);
      }
      if sigil !in tables {
        forall n | n in RefNames(v, sigil)
          ensures n in RefNames(w, sigil)
        {
          var k :| k in m && n in RefNames(m[k], sigil);
          assert n in RefNames(w.entries[k], sigil);
        }
      }
    case _ =>
  }
}
