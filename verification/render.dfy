/**
 * The table `render` builds, as rows of values: one placeholder row for an
 * empty collection, otherwise one row per contact, in order, with the cells
 * `nom`, `prenom` and `email`.
 */
module Render {
  import opened Wrappers
  import opened Json

  /** A table row. A cell holds the property's value, `None` for `undefined`. */
  datatype Row =
    | Placeholder
    | ContactRow(nom: Option<Value>, prenom: Option<Value>, email: Option<Value>)

  function RowOf(c: Value): Row
    requires c != Null
  {
    ContactRow(Property(c, "nom"), Property(c, "prenom"), Property(c, "email"))
  }

  /**
   * The rows of the `forEach`: `None` when some contact is `null`, where
   * reading `contact.nom` throws.
   */
  function Rows(contacts: seq<Value>): (r: Option<seq<Row>>)
    ensures r.Some? <==> forall i :: 0 <= i < |contacts| ==> contacts[i] != Null
    ensures r.Some? ==>
      (|r.value| == |contacts|
       && forall i :: 0 <= i < |contacts| ==> contacts[i] != Null && r.value[i] == RowOf(contacts[i]))
  {
    if contacts == [] then Some([])
    else if contacts[0] == Null then None
    else match Rows(contacts[1..])
      case None => None
      case Some(rest) => Some([RowOf(contacts[0])] + rest)
  }

  /** `render`: the placeholder row alone for an empty collection, else the contact rows. */
  function Render(contacts: seq<Value>): (r: Option<seq<Row>>)
    ensures contacts == [] ==> r == Some([Placeholder])
    ensures contacts != [] ==> r == Rows(contacts) && (r.Some? ==> Placeholder !in r.value)
  {
    if |contacts| == 0 then Some([Placeholder]) else Rows(contacts)
  }

  /** Appending a contact appends its row and leaves the earlier rows as they were. */
  lemma RowsAppend(contacts: seq<Value>, c: Value)
    requires Rows(contacts).Some? && c != Null
    ensures Rows(contacts + [c]) == Some(Rows(contacts).value + [RowOf(c)])
  {
    var rows := Rows(contacts + [c]).value;
    assert rows == Rows(contacts).value + [RowOf(c)];
  }

  /** The row shows nothing but `nom`, `prenom` and `email`: `telephone` never appears. */
  lemma TelephoneNotShown(m: map<string, Value>, v: Value)
    ensures RowOf(Obj(m)) == RowOf(Obj(m["telephone" := v])) == RowOf(Obj(m - {"telephone"}))
  {
  }
}
