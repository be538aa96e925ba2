/** The check of the manifest's function entries, the loop at the end of load_manifest
    (function_catalog/generate_function_catalog.py). */
module Manifest {
  import opened Options

  /** A JSON value, as far as the check looks at it. */
  datatype Json = Str(text: string) | Other

  datatype Item = NotObject | Object(fields: map<string, Json>)

  datatype Complaint =
    | NotAnObject(index: nat)
    | MissingFields(index: nat, missing: set<string>)
    | BadName(index: nat)
    | Duplicate(name: string)

  const REQUIRED: set<string> :=
    {"name", "kind", "category", "signature", "returns", "since", "implemented", "description"}

  /** The entry's name, or nothing where it has no string under that key. */
  function Name(item: Item): string {
    if item.Object? && "name" in item.fields && item.fields["name"].Str? then item.fields["name"].text else ""
  }

  predicate Complete(item: Item) {
    item.Object? && REQUIRED <= item.fields.Keys && Name(item) != ""
  }

  /** The entries are complete and no two share a name. */
  predicate Acceptable(items: seq<Item>) {
    && (forall item <- items :: Complete(item))
    && forall i, j | 0 <= i < j < |items| :: Name(items[i]) != Name(items[j])
  }

  /** What is wrong with entry `n`, the entries before it being acceptable. */
  predicate Explains(c: Complaint, items: seq<Item>, n: nat)
    requires n < |items|
  {
    Acceptable(items[..n]) &&
    match c
    case NotAnObject(i) => i == n && items[n].NotObject?
    case MissingFields(i, missing) =>
      i == n && items[n].Object? && missing == REQUIRED - items[n].fields.Keys && missing != {}
    case BadName(i) => i == n && items[n].Object? && REQUIRED <= items[n].fields.Keys && Name(items[n]) == ""
    case Duplicate(name) =>
      Complete(items[n]) && name == Name(items[n]) && exists i | 0 <= i < n :: Name(items[i]) == name
  }

  /** The loop stops at the first entry that makes the list unacceptable, with the
      reason; without a complaint the whole list is acceptable. */
  method CheckFunctions(items: seq<Item>) returns (complaint: Option<Complaint>)
    ensures complaint.None? <==> Acceptable(items)
    ensures complaint.Some? ==> exists n | 0 <= n < |items| :: Explains(complaint.value, items, n)
  {
    hide Complete;
    var seen: set<string> := {};
    for index := 0 to |items|
      invariant Acceptable(items[..index])
      invariant forall name :: name in seen <==> exists i | 0 <= i < index :: Name(items[i]) == name
    {
      var item := items[index];
      CompleteMeans(item);
      if item.NotObject? {
        complaint := Some(NotAnObject(index));
        assert item in items && Explains(complaint.value, items, index);
        return;
      }
      var missing := REQUIRED - item.fields.Keys;
      if missing != {} {
        complaint := Some(MissingFields(index, missing));
        assert item in items && Explains(complaint.value, items, index);
        return;
      }
      if !item.fields["name"].Str? || item.fields["name"].text == "" {
        complaint := Some(BadName(index));
        assert item in items && Explains(complaint.value, items, index);
        return;
      }
      var name := item.fields["name"].text;
      if name in seen {
        complaint := Some(Duplicate(name));
        assert Explains(complaint.value, items, index);
        return;
      }
      seen := seen + {name};
    }
    assert items[..|items|] == items;
    complaint := None;
  }

  lemma CompleteMeans(item: Item)
    ensures "name" in REQUIRED
    ensures Complete(item) <==> item.Object? && REQUIRED - item.fields.Keys == {} && Name(item) != ""
    ensures item.Object? && REQUIRED - item.fields.Keys == {} ==> "name" in item.fields && REQUIRED <= item.fields.Keys
  {
    if item.Object? {
      NothingMissing(REQUIRED, item.fields.Keys);
    }
  }

  lemma NothingMissing(required: set<string>, keys: set<string>)
    ensures required - keys == {} <==> required <= keys
  {
    forall field | field in required && required - keys == {} ensures field in keys {
      assert field in required - keys || field in keys;
    }
  }
}
