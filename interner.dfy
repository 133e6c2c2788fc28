/**
 The process-wide interning state and the symbol operations built on it.
 The state is one explicitly constructed object instead of a lazily created
 global behind a lock; every operation takes it as its receiver.
 */
module Interner {
  import opened InternTable

  /** The interning table: the stored strings in order of first appearance and
      the index from each string's content to its position. */
  class State {
    var values: seq<string>
    var mapping: map<string, nat>

    /** The table's content as a value, for stating what the methods do. */
    function Model(): Table
      reads this
    {
      Table(values, mapping)
    }

    ghost predicate Valid()
      reads this
    {
      InternTable.Valid(Model())
    }

    /** A fresh, empty table. */
    constructor ()
      ensures Valid()
      ensures values == [] && mapping == map[]
    {
      values := [];
      mapping := map[];
    }

    /** Symbol creation: returns the symbol of `value`, appending `value` to the
        table only when no equal string is stored yet. */
    method New(value: string) returns (sym: Symbol)
      requires Valid()
      modifies this
      ensures Valid()
      ensures Interned(Model(), sym) == Intern(old(Model()), value)
      ensures Issued(Model(), sym) && values[sym.index] == value
    {
      if value in mapping {
        return Symbol(mapping[value]);
      }
      var index := |values|;
      values := values + [value];
      mapping := mapping[value := index];
      sym := Symbol(index);
      InternValid(old(Model()), value);
    }

    /** The text of a symbol this table has issued. The index maps that text
        back to the same symbol, so the text is the symbol's own content. */
    function AsRef(sym: Symbol): (text: string)
      reads this
      requires Valid() && Issued(Model(), sym)
      ensures text in mapping && mapping[text] == sym.index
    {
      values[sym.index]
    }

    /** The symbol for the empty string, made through the same interning path. */
    method Default() returns (sym: Symbol)
      requires Valid()
      modifies this
      ensures Valid()
      ensures Interned(Model(), sym) == Intern(old(Model()), "")
    {
      sym := New("");
    }

    /** Conversion of any string into a symbol, by interning it. */
    method From(value: string) returns (sym: Symbol)
      requires Valid()
      modifies this
      ensures Valid()
      ensures Interned(Model(), sym) == Intern(old(Model()), value)
    {
      sym := New(value);
    }

    /** Formatting writes the symbol's own text: interning what is written
        gives back this same symbol and adds nothing to the table. */
    function Display(sym: Symbol): (out: string)
      reads this
      requires Valid() && Issued(Model(), sym)
      ensures Intern(Model(), out) == Interned(Model(), sym)
    {
      AsRef(sym)
    }

    /** A symbol used as a string view exposes its own text, which no other
        issued symbol has. */
    function Deref(sym: Symbol): (view: string)
      reads this
      requires Valid() && Issued(Model(), sym)
      ensures forall other :: Issued(Model(), other) ==> (values[other.index] == view <==> other == sym)
    {
      AsRef(sym)
    }
  }

  /** Interning "foo" into a fresh table and formatting the symbol gives "foo". */
  method FormatFoo() returns (out: string)
    ensures out == "foo"
  {
    var state := new State();
    var sym := state.New("foo");
    out := state.Display(sym);
  }

  /** Interning any string and formatting its symbol gives that string back,
      whatever the table held before. */
  method FormatInterned(state: State, s: string) returns (out: string)
    requires state.Valid()
    modifies state
    ensures state.Valid()
    ensures state.Model() == Intern(old(state.Model()), s).table
    ensures out == s
  {
    var sym := state.New(s);
    out := state.Display(sym);
  }

  /** Interning "a", "b" and "a" again: the two "a" symbols are equal, the "b"
      symbol differs from them, and the table holds two entries. */
  method EqualityScenario() returns (a: Symbol, b: Symbol, again: Symbol, entries: nat)
    ensures a == again && a != b
    ensures entries == 2
  {
    var state := new State();
    a := state.New("a");
    b := state.New("b");
    again := state.New("a");
    entries := |state.values|;
  }

  /** The default symbol and the symbol of "" are the same symbol. */
  method DefaultIsEmptyString() returns (d: Symbol, e: Symbol)
    ensures d == e
  {
    var state := new State();
    var x := state.New("x");
    d := state.Default();
    e := state.New("");
  }
}
