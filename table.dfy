/**
 The interning table as a value: an append-only list of distinct strings and
 the content-keyed index that maps each of them back to its position. Every
 property of lookup-or-insert is stated here, on values; the mutable object in
 module Interner is proved to follow these definitions step by step.
 */
module InternTable {

  /** A handle to one interned string: its position in the table.
      Two symbols are the same symbol exactly when their indices are equal. */
  datatype Symbol = Symbol(index: nat)

  /** The whole content of the table at one moment. */
  datatype Table = Table(values: seq<string>, mapping: map<string, nat>)

  /** What one lookup-or-insert produces: the table afterwards and the symbol. */
  datatype Interned = Interned(table: Table, sym: Symbol)

  /** What a run of lookup-or-insert calls produces, one symbol per call. */
  datatype Batch = Batch(table: Table, syms: seq<Symbol>)

  /** The table invariant: the stored strings are pairwise distinct and the
      index is exactly the inverse of the list. */
  ghost predicate Valid(t: Table)
    ensures Valid(t) ==> forall k :: k in t.mapping <==> k in t.values
  {
    && (forall i, j :: 0 <= i < j < |t.values| ==> t.values[i] != t.values[j])
    && (forall i :: 0 <= i < |t.values| ==> t.values[i] in t.mapping && t.mapping[t.values[i]] == i)
    && (forall k :: k in t.mapping ==> t.mapping[k] < |t.values| && t.values[t.mapping[k]] == k)
  }

  /** A symbol that this table has handed out, so reading its text is in bounds. */
  predicate Issued(t: Table, sym: Symbol) {
    sym.index < |t.values|
  }

  /** Lookup-or-insert. A string already present yields its stored index and
      leaves the table as it was; a new string is appended at the end of the
      list and recorded in the index under its position. */
  function Intern(t: Table, s: string): (r: Interned)
    ensures s in t.mapping ==> r.table == t && r.sym.index == t.mapping[s]
    ensures s !in t.mapping ==>
              && r.table.values == t.values + [s]
              && r.table.mapping.Keys == t.mapping.Keys + {s}
              && r.table.mapping[s] == |t.values|
              && r.sym.index == |t.values|
    ensures t.values <= r.table.values
    ensures forall k :: k in t.mapping ==> k in r.table.mapping && r.table.mapping[k] == t.mapping[k]
  {
    if s in t.mapping then
      Interned(t, Symbol(t.mapping[s]))
    else
      var index := |t.values|;
      Interned(Table(t.values + [s], t.mapping[s := index]), Symbol(index))
  }

  /** Interns the strings of `ss` one after the other, from the first to the last. */
  function InternAll(t: Table, ss: seq<string>): (r: Batch)
    ensures |r.syms| == |ss|
    ensures t.values <= r.table.values
    decreases |ss|
  {
    if ss == [] then
      Batch(t, [])
    else
      var first := Intern(t, ss[0]);
      var rest := InternAll(first.table, ss[1..]);
      Batch(rest.table, [first.sym] + rest.syms)
  }

  /** Lookup-or-insert keeps the invariant, so every content is stored at most
      once, and the symbol it returns is in bounds and reads back the string
      it was given. */
  lemma InternValid(t: Table, s: string)
    requires Valid(t)
    ensures var r := Intern(t, s);
              && Valid(r.table)
              && Issued(r.table, r.sym)
              && r.table.values[r.sym.index] == s
              && s in r.table.mapping && r.table.mapping[s] == r.sym.index
  {
  }

  /** Under the invariant, two issued symbols are equal exactly when their
      texts are equal: index equality and content equality coincide. */
  lemma SymbolEqualityIsContentEquality(t: Table, a: Symbol, b: Symbol)
    requires Valid(t) && Issued(t, a) && Issued(t, b)
    ensures a == b <==> t.values[a.index] == t.values[b.index]
  {
  }

  /** Interning the same string a second time returns the same symbol and
      changes nothing further. */
  lemma InternIdempotent(t: Table, s: string)
    ensures var r := Intern(t, s);
              Intern(r.table, s) == r
  {
  }

  /** Interning a string that is already present any number of times returns
      its stored symbol every time and leaves the table as it was. */
  lemma {:induction false} InternAllPresent(t: Table, c: string, n: nat)
    requires c in t.mapping
    ensures InternAll(t, seq(n, _ => c)) == Batch(t, seq(n, _ => Symbol(t.mapping[c])))
  {
    if n > 0 {
      var cs := seq(n, _ => c);
      assert cs[1..] == seq(n - 1, _ => c);
      InternAllPresent(t, c, n - 1);
      assert [Symbol(t.mapping[c])] + seq(n - 1, _ => Symbol(t.mapping[c]))
          == seq(n, _ => Symbol(t.mapping[c]));
    }
  }

  /** Interning one content `n > 0` times in a row yields one and the same
      symbol each time, and adds exactly one entry when the content was new and
      none when it was already present. */
  lemma RepeatedInternAddsOneEntry(t: Table, c: string, n: nat)
    requires n > 0
    ensures var r := InternAll(t, seq(n, _ => c));
              var once := Intern(t, c);
              && r.table == once.table
              && (forall i :: 0 <= i < n ==> r.syms[i] == once.sym)
              && |r.table.values| == |t.values| + (if c in t.mapping then 0 else 1)
  {
    var once := Intern(t, c);
    var cs := seq(n, _ => c);
    assert cs[1..] == seq(n - 1, _ => c);
    assert c in once.table.mapping && once.table.mapping[c] == once.sym.index;
    InternAllPresent(once.table, c, n - 1);
    var r := InternAll(t, cs);
    assert r.syms == [once.sym] + seq(n - 1, _ => Symbol(once.table.mapping[c]));
  }

  /** Any run of lookup-or-insert calls keeps the invariant; each returned
      symbol reads back exactly the string it was created from, even after all
      the later calls; and every symbol issued before the run keeps its text. */
  lemma {:induction false} InternAllFaithful(t: Table, ss: seq<string>)
    requires Valid(t)
    ensures var r := InternAll(t, ss);
              && Valid(r.table)
              && (forall i :: 0 <= i < |ss| ==>
                    Issued(r.table, r.syms[i]) && r.table.values[r.syms[i].index] == ss[i])
              && (forall sym :: Issued(t, sym) ==>
                    Issued(r.table, sym) && r.table.values[sym.index] == t.values[sym.index])
    decreases |ss|
  {
    if ss != [] {
      var first := Intern(t, ss[0]);
      InternValid(t, ss[0]);
      InternAllFaithful(first.table, ss[1..]);
      var rest := InternAll(first.table, ss[1..]);
      var r := InternAll(t, ss);
      assert r.table == rest.table;
      forall i | 0 <= i < |ss|
        ensures Issued(r.table, r.syms[i]) && r.table.values[r.syms[i].index] == ss[i]
      {
        if i == 0 {
          assert Issued(first.table, first.sym);
        } else {
          assert r.syms[i] == rest.syms[i - 1];
          assert ss[1..][i - 1] == ss[i];
        }
      }
    }
  }

  /** Within any run of lookup-or-insert calls, two calls return the same
      symbol exactly when they were given the same string. */
  lemma InternAllDedup(t: Table, ss: seq<string>, i: nat, j: nat)
    requires Valid(t)
    requires i < |ss| && j < |ss|
    ensures var r := InternAll(t, ss);
              r.syms[i] == r.syms[j] <==> ss[i] == ss[j]
  {
    InternAllFaithful(t, ss);
    var r := InternAll(t, ss);
    SymbolEqualityIsContentEquality(r.table, r.syms[i], r.syms[j]);
  }
}
