/**
 * The `ContactBook` object: an in-memory collection of contacts kept in step
 * with a snapshot in the browser's local storage, plus the form handler
 * `handleSubmit` and the export guard `exportContacts`.
 */
module ContactStore {
  import opened Wrappers
  import opened Json
  import opened Validation
  import opened ImportValidation
  import opened Render

  /** The one storage key the collection is kept under. */
  const StorageKey: string := "contactBook"

  /**
   * The browser's local storage. Each key holds the collection its stored
   * text decodes to; the JSON text itself is not modelled.
   */
  class LocalStorage {
    var items: map<string, seq<Value>>
  }

  /** `contact` as `addContact` pushes it: with `id` and `createdAt` set. */
  function Stamped(contact: map<string, Value>, id: int, createdAt: string): Value
  {
    Obj(contact["id" := Num(id as real)]["createdAt" := Str(createdAt)])
  }

  /** The `formData` object `handleSubmit` builds from the (already trimmed) fields. */
  function FormRecord(f: Form): map<string, Value>
  {
    map["nom" := Str(f.nom), "prenom" := Str(f.prenom), "email" := Str(f.email), "telephone" := Str(f.telephone)]
  }

  /**
   * The contact added for a submitted form shows every trimmed field, the
   * given `id` and `createdAt`, and nothing else.
   */
  lemma StampedFormContents(f: Form, id: int, createdAt: string)
    ensures var c := Stamped(FormRecord(Trimmed(f)), id, createdAt);
      && c.Obj? && c.fields.Keys == {"nom", "prenom", "email", "telephone", "id", "createdAt"}
      && Property(c, "nom") == Some(Str(Trim(f.nom)))
      && Property(c, "prenom") == Some(Str(Trim(f.prenom)))
      && Property(c, "email") == Some(Str(Trim(f.email)))
      && Property(c, "telephone") == Some(Str(Trim(f.telephone)))
      && Property(c, "id") == Some(Num(id as real))
      && Property(c, "createdAt") == Some(Str(createdAt))
  {
  }

  class ContactBook {
    /** The contacts in insertion (and display) order. */
    var contacts: seq<Value>
    /** Where the snapshot lives. */
    const storage: LocalStorage

    /** The snapshot under the storage key is exactly the in-memory collection. */
    ghost predicate Synced()
      reads this, storage
    {
      StorageKey in storage.items && storage.items[StorageKey] == contacts
    }

    /** `new ContactBook()`: starts from the stored snapshot, or from empty when there is none. */
    constructor (storage: LocalStorage)
      ensures this.storage == storage
      ensures StorageKey !in storage.items ==> contacts == []
      ensures StorageKey in storage.items ==> contacts == storage.items[StorageKey]
    {
      this.storage := storage;
      contacts := [];
      new;
      contacts := LoadFromLocalStorage();
    }

    /** `loadFromLocalStorage`: the stored collection, or the empty one when the key is absent. */
    method LoadFromLocalStorage() returns (loaded: seq<Value>)
      ensures StorageKey !in storage.items ==> loaded == []
      ensures StorageKey in storage.items ==> loaded == storage.items[StorageKey]
    {
      if StorageKey in storage.items {
        loaded := storage.items[StorageKey];
      } else {
        loaded := [];
      }
    }

    /** `saveToLocalStorage`: overwrites the snapshot with the whole collection; other keys stay. */
    method SaveToLocalStorage()
      modifies storage
      ensures storage.items == old(storage.items)[StorageKey := contacts]
      ensures Synced()
    {
      storage.items := storage.items[StorageKey := contacts];
    }

    /**
     * `addContact`: appends the stamped contact after every earlier one and
     * saves. It does not validate the contact and does not check that `id` is new.
     */
    method AddContact(contact: map<string, Value>, id: int, createdAt: string)
      modifies this, storage
      ensures |contacts| == |old(contacts)| + 1
      ensures contacts[..|old(contacts)|] == old(contacts)
      ensures contacts[|contacts| - 1] == Stamped(contact, id, createdAt)
      ensures storage.items == old(storage.items)[StorageKey := contacts]
      ensures Synced()
    {
      var stamped := Stamped(contact, id, createdAt);
      contacts := contacts + [stamped];
      SaveToLocalStorage();
    }

    /**
     * The import step, given what `JSON.parse` produced (`None` when it threw):
     * all or nothing. It reports what `CheckImport` decides; on success the
     * collection becomes the imported array and is saved, on failure neither
     * the collection nor the storage changes.
     */
    method ImportFromJSON(parsed: Option<Value>) returns (outcome: Outcome<ImportError>)
      modifies this, storage
      ensures CheckImport(parsed).Success? ==>
        outcome == Pass && contacts == CheckImport(parsed).value
        && storage.items == old(storage.items)[StorageKey := contacts] && Synced()
      ensures CheckImport(parsed).Failure? ==>
        outcome == Fail(CheckImport(parsed).error)
        && contacts == old(contacts) && storage.items == old(storage.items)
    {
      if parsed.None? {
        return Fail(SyntaxError);
      }
      var imported := parsed.value;
      if !imported.Arr? {
        return Fail(NotAnArray);
      }
      var items := imported.items;
      var index := 0;
      while index < |items|
        invariant 0 <= index <= |items|
        invariant forall j :: 0 <= j < index ==> Acceptable(items[j])
      {
        var contact := items[index];
        if contact == Null {
          RejectionReported(items, index);
          return Fail(NullElement);
        }
        if !HasTruthy(contact, "nom") || !HasTruthy(contact, "prenom") || !HasTruthy(contact, "email") {
          RejectionReported(items, index);
          return Fail(MissingFields(index + 1));
        }
        index := index + 1;
      }
      contacts := items;
      SaveToLocalStorage();
      outcome := Pass;
    }
  }

  /** What `handleSubmit` ends with. */
  datatype SubmitOutcome =
    | FieldsRequired  // "Tous les champs sont obligatoires": nothing added
    | Added

  /**
   * `handleSubmit`: trims the four fields; when one is empty it stops,
   * otherwise it adds the trimmed contact. It does not check the email pattern.
   */
  method HandleSubmit(book: ContactBook, form: Form, id: int, createdAt: string) returns (outcome: SubmitOutcome)
    modifies book, book.storage
    ensures outcome == Added <==> AllFilled(form)
    ensures outcome == Added ==>
      book.contacts == old(book.contacts) + [Stamped(FormRecord(Trimmed(form)), id, createdAt)]
      && book.storage.items == old(book.storage.items)[StorageKey := book.contacts]
    ensures outcome == FieldsRequired ==>
      book.contacts == old(book.contacts) && book.storage.items == old(book.storage.items)
  {
    TrimEmptyIff(form.nom);
    TrimEmptyIff(form.prenom);
    TrimEmptyIff(form.email);
    TrimEmptyIff(form.telephone);
    var formData := Trimmed(form);
    if formData.nom == "" || formData.prenom == "" || formData.email == "" || formData.telephone == "" {
      return FieldsRequired;
    }
    book.AddContact(FormRecord(formData), id, createdAt);
    outcome := Added;
  }

  /** Whenever `validateForm` enables the button, `handleSubmit` adds the contact. */
  lemma EnabledFormIsAccepted(f: Form)
    requires !ValidateForm(f)
    ensures AllFilled(f) && EmailShaped(Trim(f.email))
  {
    EmailPatternCharacterised(Trim(f.email));
  }

  /**
   * The converse fails: `handleSubmit` alone would add a contact whose email
   * the button's check rejects.
   */
  lemma SubmitSkipsEmailCheck()
    ensures ValidateForm(Form("a", "b", "a@b", "1"))
    ensures AllFilled(Form("a", "b", "a@b", "1"))
  {
    EmailExamples();
    assert !IsSpace('a') && !IsSpace('b') && !IsSpace('1');
    assert Trim("a@b") == "a@b";
    assert Visible("a") && Visible("b") && Visible("a@b") && Visible("1") by {
      assert !IsSpace("a"[0]) && !IsSpace("b"[0]) && !IsSpace("a@b"[0]) && !IsSpace("1"[0]);
    }
  }

  /** A successful import leaves a collection that renders fully: one row per imported contact, in order. */
  lemma ImportedCollectionRenders(parsed: Option<Value>)
    requires CheckImport(parsed).Success?
    ensures var items := CheckImport(parsed).value;
      Rows(items).Some? && |Rows(items).value| == |items|
  {
    var items := CheckImport(parsed).value;
    assert forall i :: 0 <= i < |items| ==> Acceptable(items[i]);
  }

  /** Adding to a collection that renders adds exactly one row, at the end. */
  lemma AddedContactRendersLast(contacts: seq<Value>, contact: map<string, Value>, id: int, createdAt: string)
    requires Rows(contacts).Some?
    ensures Rows(contacts + [Stamped(contact, id, createdAt)])
      == Some(Rows(contacts).value + [RowOf(Stamped(contact, id, createdAt))])
  {
    RowsAppend(contacts, Stamped(contact, id, createdAt));
  }

  // ---------------------------------------------------------------------------
  // exportContacts

  /** What a click on the export button leads to. */
  datatype ExportAction =
    | NothingToExport             // "Aucun contact à exporter"
    | Download(payload: seq<Value>)
    | TypeError                   // an exception escapes the click handler

  /**
   * `exportContacts` as written: it calls `contactBook.getCount()`, a method
   * `ContactBook` does not define, so the call throws before anything else.
   */
  function ExportContactsAsWritten(contacts: seq<Value>): (a: ExportAction)
    ensures !a.Download?
  {
    TypeError
  }

  /** `exportContacts` with the count taken as the collection's length. */
  function ExportContacts(contacts: seq<Value>): (a: ExportAction)
    ensures a == NothingToExport <==> contacts == []
    ensures contacts != [] ==> a == Download(contacts)
  {
    if |contacts| == 0 then NothingToExport else Download(contacts)
  }

  /** On every collection, empty or not, the written guard never reaches the export or the "nothing to export" message. */
  lemma ExportAsWrittenDiverges(contacts: seq<Value>)
    ensures ExportContactsAsWritten(contacts) != ExportContacts(contacts)
  {
  }
}
