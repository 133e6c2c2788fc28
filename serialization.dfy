/**
 The serialization adapter at the level of strings: a symbol is written as its
 text, and text that is read back is turned into a symbol by interning it in
 the same table.
 */
module Serialization {
  import opened InternTable
  import opened Interner

  /** The encoded form of a symbol: its stored text, with nothing added. */
  function Serialize(state: State, sym: Symbol): (text: string)
    reads state
    requires state.Valid() && Issued(state.Model(), sym)
    ensures text in state.mapping && state.mapping[text] == sym.index
  {
    state.AsRef(sym)
  }

  /** Decoding a string, whether borrowed or owned: the string is interned. */
  method Deserialize(state: State, text: string) returns (sym: Symbol)
    requires state.Valid()
    modifies state
    ensures state.Valid()
    ensures Interned(state.Model(), sym) == Intern(old(state.Model()), text)
    ensures forall x :: Issued(old(state.Model()), x) && text == old(state.values[x.index]) ==>
              sym == x && state.Model() == old(state.Model())
  {
    sym := state.New(text);
    forall x | Issued(old(state.Model()), x) && text == old(state.values[x.index])
      ensures sym == x && state.Model() == old(state.Model())
    {
      RoundTrip(old(state.Model()), x);
    }
  }

  /** Encoding an issued symbol and decoding the text through the same table
      gives back that symbol and leaves the table as it was. */
  method EncodeThenDecode(state: State, x: Symbol) returns (y: Symbol)
    requires state.Valid() && Issued(state.Model(), x)
    modifies state
    ensures state.Valid()
    ensures y == x && state.Model() == old(state.Model())
  {
    var text := Serialize(state, x);
    y := Deserialize(state, text);
  }

  /** Decoding the encoded form of an issued symbol through the same table
      gives back that symbol and leaves the table as it was. */
  lemma RoundTrip(t: Table, sym: Symbol)
    requires InternTable.Valid(t) && Issued(t, sym)
    ensures Intern(t, t.values[sym.index]) == Interned(t, sym)
  {
  }
}
