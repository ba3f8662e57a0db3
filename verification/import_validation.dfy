/**
 * What the import step checks before it replaces the collection: the parsed
 * file must be an array, and the `forEach` over it throws at the first
 * element lacking a truthy `nom`, `prenom` or `email`.
 */
module ImportValidation {
  import opened Wrappers
  import opened Json

  /** The error the import's `catch` block reports. */
  datatype ImportError =
    | SyntaxError               // JSON.parse threw on the file's text
    | NotAnArray                // the parsed value is not an array
    | NullElement               // TypeError: reading `nom` of a null element
    | MissingFields(position: nat)  // "Contact <position> invalide", 1-based

  /** An element the validation loop lets through. `telephone` is not looked at. */
  predicate Acceptable(c: Value)
  {
    c != Null && HasTruthy(c, "nom") && HasTruthy(c, "prenom") && HasTruthy(c, "email")
  }

  /** `k` is the index of the first element that the validation loop rejects. */
  ghost predicate FirstInvalidAt(items: seq<Value>, k: nat)
  {
    k < |items| && !Acceptable(items[k]) && forall j :: 0 <= j < k ==> Acceptable(items[j])
  }

  /** The index at which the validation loop stops, if it stops early. */
  function FirstRejected(items: seq<Value>): Option<nat>
  {
    if items == [] then None
    else if !Acceptable(items[0]) then Some(0)
    else match FirstRejected(items[1..])
      case None => None
      case Some(i) => Some(i + 1)
  }

  /** The loop runs to the end exactly when every element is acceptable; otherwise it stops at the first one that is not. */
  lemma {:induction false} FirstRejectedSpec(items: seq<Value>)
    ensures FirstRejected(items).None? <==> forall i :: 0 <= i < |items| ==> Acceptable(items[i])
    ensures FirstRejected(items).Some? ==> FirstInvalidAt(items, FirstRejected(items).value)
  {
    if items != [] && Acceptable(items[0]) {
      var tail := items[1..];
      FirstRejectedSpec(tail);
      assert forall i :: 0 < i < |items| ==> items[i] == tail[i - 1];
      if FirstRejected(tail).None? {
        forall i | 0 <= i < |items| ensures Acceptable(items[i]) {
          if i > 0 { assert Acceptable(tail[i - 1]); }
        }
      } else {
        var k := FirstRejected(tail).value;
        assert !Acceptable(items[k + 1]);
      }
    }
  }

  /** The first invalid index is unique, so it is the one the loop reports. */
  lemma FirstRejectedAt(items: seq<Value>, k: nat)
    requires FirstInvalidAt(items, k)
    ensures FirstRejected(items) == Some(k)
  {
    FirstRejectedSpec(items);
  }

  /**
   * The verdict of the import step on the value `JSON.parse` produced (`None`
   * when it threw): the array to install, or the error reported.
   */
  function CheckImport(parsed: Option<Value>): (r: Result<seq<Value>, ImportError>)
    ensures r == Failure(SyntaxError) <==> parsed.None?
    ensures r == Failure(NotAnArray) <==> parsed.Some? && !parsed.value.Arr?
    ensures r.Success? <==>
      parsed.Some? && parsed.value.Arr?
      && forall i :: 0 <= i < |parsed.value.items| ==> Acceptable(parsed.value.items[i])
    ensures r.Success? ==> r.value == parsed.value.items
    ensures r == Failure(NullElement) ==>
      parsed.Some? && parsed.value.Arr?
      && exists k: nat :: FirstInvalidAt(parsed.value.items, k) && parsed.value.items[k] == Null
    ensures r.Failure? && r.error.MissingFields? ==>
      parsed.Some? && parsed.value.Arr? && 1 <= r.error.position
      && FirstInvalidAt(parsed.value.items, r.error.position - 1)
      && parsed.value.items[r.error.position - 1] != Null
  {
    match parsed
    case None => Failure(SyntaxError)
    case Some(imported) =>
      if !imported.Arr? then Failure(NotAnArray)
      else
        var items := imported.items;
        FirstRejectedSpec(items);
        match FirstRejected(items)
        case None => Success(items)
        case Some(k) => if items[k] == Null then Failure(NullElement) else Failure(MissingFields(k + 1))
  }

  /**
   * Conversely, every first invalid element is reported: with the 1-based
   * position when it is an object missing a field, as a TypeError when it is
   * `null`.
   */
  lemma RejectionReported(items: seq<Value>, k: nat)
    requires FirstInvalidAt(items, k)
    ensures items[k] == Null ==> CheckImport(Some(Arr(items))) == Failure(NullElement)
    ensures items[k] != Null ==> CheckImport(Some(Arr(items))) == Failure(MissingFields(k + 1))
  {
    FirstRejectedAt(items, k);
  }

  /** Import never looks at `telephone`: changing or removing it in any element leaves the verdict's kind alone. */
  lemma TelephoneIgnored(items: seq<Value>, i: nat, m: map<string, Value>, v: Option<Value>)
    requires i < |items| && items[i] == Obj(m)
    ensures var m' := if v.Some? then m["telephone" := v.value] else m - {"telephone"};
      var r, r' := CheckImport(Some(Arr(items))), CheckImport(Some(Arr(items[i := Obj(m')])));
      r.Success? == r'.Success? && (r.Failure? ==> r.error == r'.error)
  {
    var m' := if v.Some? then m["telephone" := v.value] else m - {"telephone"};
    var items' := items[i := Obj(m')];
    assert Acceptable(items[i]) == Acceptable(items'[i]);
    assert forall j :: 0 <= j < |items| ==> Acceptable(items[j]) == Acceptable(items'[j]);
    FirstRejectedSpec(items);
    FirstRejectedSpec(items');
    if FirstRejected(items).Some? {
      var k := FirstRejected(items).value;
      assert FirstInvalidAt(items', k);
      FirstRejectedAt(items', k);
    }
  }

  /** A file whose second contact has an empty `nom` is rejected at position 2. */
  lemma SecondContactRejected()
    ensures CheckImport(Some(Arr([
      Obj(map["nom" := Str("A"), "prenom" := Str("B"), "email" := Str("a@b.c")]),
      Obj(map["nom" := Str(""), "prenom" := Str("D"), "email" := Str("d@e.f")])
    ]))) == Failure(MissingFields(2))
  {
    var items := [
      Obj(map["nom" := Str("A"), "prenom" := Str("B"), "email" := Str("a@b.c")]),
      Obj(map["nom" := Str(""), "prenom" := Str("D"), "email" := Str("d@e.f")])
    ];
    assert Acceptable(items[0]);
    assert !Acceptable(items[1]);
    RejectionReported(items, 1);
  }
}
