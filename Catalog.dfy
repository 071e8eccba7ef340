/**
 The field catalog (`mockApiResponse`): a fixed table from category name to
 the ordered list of field descriptors the form shows for that category.
 */
module Catalog {

  datatype Kind = Text | Number | Date | Password | Dropdown

  /** One field descriptor; `options` is empty for every kind but Dropdown. */
  datatype Field = Field(name: string, kind: Kind, caption: string, required: bool, options: seq<string>)

  const UserInformation: string := "User Information"
  const AddressInformation: string := "Address Information"
  const PaymentInformation: string := "Payment Information"

  const UserFields: seq<Field> := [
    Field("firstName", Text, "First Name", true, []),
    Field("lastName", Text, "Last Name", true, []),
    Field("age", Number, "Age", false, [])
  ]

  const AddressFields: seq<Field> := [
    Field("street", Text, "Street", true, []),
    Field("city", Text, "City", true, []),
    Field("state", Dropdown, "State", true, ["California", "Texas", "New York"]),
    Field("zipCode", Text, "Zip Code", false, [])
  ]

  const PaymentFields: seq<Field> := [
    Field("cardNumber", Text, "Card Number", true, []),
    Field("expiryDate", Date, "Expiry Date", true, []),
    Field("cvv", Password, "CVV", true, []),
    Field("cardholderName", Text, "Cardholder Name", true, [])
  ]

  const Table: map<string, seq<Field>> := map[
    UserInformation := UserFields,
    AddressInformation := AddressFields,
    PaymentInformation := PaymentFields
  ]

  const Categories: set<string> := {UserInformation, AddressInformation, PaymentInformation}

  /** The names of `fields`, in order. */
  function FieldNames(fields: seq<Field>): (names: seq<string>)
    ensures |names| == |fields|
    ensures forall i :: 0 <= i < |fields| ==> names[i] == fields[i].name
  {
    if fields == [] then [] else [fields[0].name] + FieldNames(fields[1..])
  }

  /** Whether some field of the list is required. */
  predicate HasRequired(fields: seq<Field>)
  {
    exists i :: 0 <= i < |fields| && fields[i].required
  }

  /** Descriptors carry options exactly when they are dropdowns. */
  predicate OptionsMatchKind(f: Field)
  {
    (f.kind == Dropdown) == (f.options != [])
  }

  /** The names within a category are pairwise distinct. */
  predicate DistinctNames(fields: seq<Field>)
  {
    forall i, j :: 0 <= i < j < |fields| ==> fields[i].name != fields[j].name
  }

  /**
   The catalog covers exactly the three categories; each of them has at least
   one required field, distinct field names, and options only on dropdowns.
   */
  lemma CatalogShape()
    ensures Table.Keys == Categories
    ensures forall c :: c in Table ==> Table[c] != [] && HasRequired(Table[c])
    ensures forall c :: c in Table ==> DistinctNames(Table[c])
    ensures forall c, i :: c in Table && 0 <= i < |Table[c]| ==> OptionsMatchKind(Table[c][i])
  {
    assert UserFields[0].required;
    assert AddressFields[0].required;
    assert PaymentFields[0].required;
  }

  /** Each catalog category has a required field. */
  lemma CategoryHasRequired(category: string)
    requires category in Table
    ensures Table[category] != [] && HasRequired(Table[category])
  {
    CatalogShape();
  }

  /** A category is listed in the table exactly when it is one of the three names. */
  function Lookup(category: string): (r: seq<Field>)
    ensures category in Table <==> r != []
    ensures category in Table ==> r == Table[category]
  {
    if category in Table then
      CatalogShape();
      Table[category]
    else []
  }
}
