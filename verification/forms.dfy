/**
 * populateFormFields on a model of the page's forms: each form is the sequence
 * of its input elements in document order, and each mapped attribution field
 * is written into the first input with its name, or into a new hidden input
 * appended to the form.
 */
module Forms {
  import opened Options
  import opened Stores

  /** An `<input>` element: its `name`, its `value` and whether its type is `hidden`. */
  datatype Input = Input(name: string, value: string, hidden: bool)

  /** A form's inputs in document order. */
  type Form = seq<Input>

  /** A storage key and the form field that receives its value. */
  datatype Field = Field(key: string, name: string)

  /** The mapping of populateFormFields, in its iteration order (no click identifiers). */
  const Fields: seq<Field> := [
    Field(Source, "UTM_Source__c"),
    Field(Medium, "UTM_Medium__c"),
    Field(Campaign, "UTM_Campaign__c"),
    Field("utm_content", "UTM_Content__c"),
    Field("utm_term", "UTM_Term__c")
  ]

  /** No two fields write the same input name. */
  predicate DistinctNames(fields: seq<Field>) {
    forall i, j | 0 <= i < j < |fields| :: fields[i].name != fields[j].name
  }

  /** `form.querySelector('input[name="…"]')`: the index of the first input with that name. */
  function FirstNamed(form: Form, name: string): (r: Option<nat>)
    ensures r.None? <==> forall i | 0 <= i < |form| :: form[i].name != name
    ensures r.Some? ==> r.value < |form| && form[r.value].name == name
    ensures r.Some? ==> forall i | 0 <= i < r.value :: form[i].name != name
  {
    if |form| == 0 then None
    else if form[0].name == name then Some(0)
    else match FirstNamed(form[1..], name)
      case None => None
      case Some(j) => Some(j + 1)
  }

  /** The first input of a name depends on the inputs' names only. */
  lemma FirstNamedByNames(a: Form, b: Form, name: string)
    requires |a| == |b| && forall i | 0 <= i < |a| :: a[i].name == b[i].name
    ensures FirstNamed(a, name) == FirstNamed(b, name)
  {
  }

  /** The input at `i` is the first one carrying its name. */
  predicate IsFirstOfName(form: Form, i: nat)
    requires i < |form|
  {
    forall k | 0 <= k < i :: form[k].name != form[i].name
  }

  /** One field of populateFormFields: set the value of the first input with that name, or append a hidden one. */
  function SetField(form: Form, name: string, value: string): (f: Form)
    ensures |f| == |form| || |f| == |form| + 1
    ensures |f| == |form| + 1 <==> FirstNamed(form, name).None?
    ensures |f| == |form| + 1 ==> f[|form|] == Input(name, value, true)
    ensures FirstNamed(f, name).Some? && f[FirstNamed(f, name).value].value == value
    ensures forall i | 0 <= i < |form| :: f[i].name == form[i].name && f[i].hidden == form[i].hidden
    ensures forall i | 0 <= i < |form| && !(form[i].name == name && IsFirstOfName(form, i)) :: f[i] == form[i]
  {
    match FirstNamed(form, name)
    case Some(i) =>
      var f := form[i := form[i].(value := value)];
      FirstNamedByNames(form, f, name);
      f
    case None => form + [Input(name, value, true)]
  }

  /** SetField's two cases, as a caller that tests for the input first sees them. */
  lemma SetFieldCases(form: Form, name: string, value: string)
    ensures FirstNamed(form, name).Some? ==>
              SetField(form, name, value) ==
              form[FirstNamed(form, name).value := form[FirstNamed(form, name).value].(value := value)]
    ensures FirstNamed(form, name).None? ==> SetField(form, name, value) == form + [Input(name, value, true)]
  {
  }

  /** The fields applied in order; recursion on the last field, as a loop over them runs. */
  function ApplyFields(form: Form, fields: seq<Field>, storage: Store): Form
  {
    if |fields| == 0 then form
    else
      var last := fields[|fields| - 1];
      SetField(ApplyFields(form, fields[..|fields| - 1], storage), last.name, Get(storage, last.key))
  }

  /** Applying one more field of a list is one more SetField. */
  lemma ApplyFieldsStep(form: Form, fields: seq<Field>, j: nat, storage: Store)
    requires j < |fields|
    ensures ApplyFields(form, fields[..j + 1], storage) ==
              SetField(ApplyFields(form, fields[..j], storage), fields[j].name, Get(storage, fields[j].key))
  {
    assert fields[..j + 1][..j] == fields[..j];
    assert fields[..j + 1][j] == fields[j];
  }

  /** populateFormFields for one form. */
  function PopulateForm(form: Form, storage: Store): Form
  {
    ApplyFields(form, Fields, storage)
  }

  /** populateFormFields over every form of the page. */
  function PopulateAll(forms: seq<Form>, storage: Store): (r: seq<Form>)
    ensures |r| == |forms|
    ensures forall i | 0 <= i < |forms| :: r[i] == PopulateForm(forms[i], storage)
  {
    seq(|forms|, i requires 0 <= i < |forms| => PopulateForm(forms[i], storage))
  }

  /** Writing one name leaves the first input of every other name where it was, with its value. */
  lemma SetFieldKeepsOtherNames(form: Form, name: string, value: string, other: string)
    requires other != name
    ensures var f := SetField(form, name, value);
            FirstNamed(f, other) == FirstNamed(form, other) &&
            (FirstNamed(form, other).Some? ==> f[FirstNamed(form, other).value] == form[FirstNamed(form, other).value])
  {
    SetFieldCases(form, name, value);
    var f := SetField(form, name, value);
    match FirstNamed(form, name)
    case Some(i) =>
      FirstNamedByNames(form, f, other);
    case None =>
      assert f == form + [Input(name, value, true)];
      FirstNamedAppend(form, Input(name, value, true), other);
  }

  /** Appending an input of another name leaves the first input of a name where it was. */
  lemma FirstNamedAppend(form: Form, x: Input, other: string)
    requires x.name != other
    ensures FirstNamed(form + [x], other) == FirstNamed(form, other)
  {
    var g := form + [x];
    assert forall i | 0 <= i < |form| :: g[i] == form[i];
  }

  /** Writing a value the first input of that name already holds changes nothing. */
  lemma SetFieldUnchanged(form: Form, name: string, value: string)
    requires FirstNamed(form, name).Some? && form[FirstNamed(form, name).value].value == value
    ensures SetField(form, name, value) == form
  {
  }

  /** The input names the fields write. */
  function Names(fields: seq<Field>): (names: set<string>)
    ensures forall j | 0 <= j < |fields| :: fields[j].name in names
  {
    set j | 0 <= j < |fields| :: fields[j].name
  }

  /** Populating keeps every input of the form, with its name and type, and only appends. */
  lemma {:induction false} ApplyFieldsKeepsInputs(form: Form, fields: seq<Field>, storage: Store)
    ensures var f := ApplyFields(form, fields, storage);
            |form| <= |f| <= |form| + |fields| &&
            forall i | 0 <= i < |form| :: f[i].name == form[i].name && f[i].hidden == form[i].hidden
  {
    if |fields| > 0 {
      ApplyFieldsKeepsInputs(form, fields[..|fields| - 1], storage);
    }
  }

  /** Only the first input of a field name has its value changed; every other input is left as it was. */
  lemma {:induction false} ApplyFieldsUntouched(form: Form, fields: seq<Field>, storage: Store)
    ensures var f := ApplyFields(form, fields, storage);
            |form| <= |f| &&
            forall i | 0 <= i < |form| && !(IsFirstOfName(form, i) && form[i].name in Names(fields)) :: f[i] == form[i]
  {
    if |fields| > 0 {
      var prefix := fields[..|fields| - 1];
      var last := fields[|fields| - 1];
      assert Names(fields) == Names(prefix) + {last.name};
      ApplyFieldsUntouched(form, prefix, storage);
      ApplyFieldsKeepsInputs(form, prefix, storage);
      UntouchedStep(form, ApplyFields(form, prefix, storage), last.name, Get(storage, last.key), Names(prefix));
    }
  }

  /** One more field write leaves alone every input that is not the first of its name. */
  lemma UntouchedStep(form: Form, g: Form, name: string, value: string, names: set<string>)
    requires |form| <= |g| && forall i | 0 <= i < |form| :: g[i].name == form[i].name
    requires forall i | 0 <= i < |form| && !(IsFirstOfName(form, i) && form[i].name in names) :: g[i] == form[i]
    ensures var f := SetField(g, name, value);
            |form| <= |f| &&
            forall i | 0 <= i < |form| && !(IsFirstOfName(form, i) && form[i].name in names + {name}) :: f[i] == form[i]
  {
    var f := SetField(g, name, value);
    forall i | 0 <= i < |form| && !(IsFirstOfName(form, i) && form[i].name in names + {name})
      ensures f[i] == form[i]
    {
      assert IsFirstOfName(g, i) == IsFirstOfName(form, i);
    }
  }

  /** Appended inputs are hidden and carry field names the form lacked. */
  lemma {:induction false} ApplyFieldsAppendsHidden(form: Form, fields: seq<Field>, storage: Store)
    ensures var f := ApplyFields(form, fields, storage);
            forall i | |form| <= i < |f| :: f[i].hidden && f[i].name in Names(fields) && FirstNamed(form, f[i].name).None?
  {
    if |fields| > 0 {
      var prefix := fields[..|fields| - 1];
      var last := fields[|fields| - 1];
      assert Names(fields) == Names(prefix) + {last.name};
      ApplyFieldsAppendsHidden(form, prefix, storage);
      ApplyFieldsKeepsInputs(form, prefix, storage);
      AppendsHiddenStep(form, ApplyFields(form, prefix, storage), last.name, Get(storage, last.key), Names(fields));
    }
  }

  /** One more field write appends, if anything, a hidden input whose name the form lacked. */
  lemma AppendsHiddenStep(form: Form, g: Form, name: string, value: string, names: set<string>)
    requires |form| <= |g| && forall i | 0 <= i < |form| :: g[i].name == form[i].name
    requires forall i | |form| <= i < |g| :: g[i].hidden && g[i].name in names && FirstNamed(form, g[i].name).None?
    requires name in names
    ensures var f := SetField(g, name, value);
            forall i | |form| <= i < |f| :: f[i].hidden && f[i].name in names && FirstNamed(form, f[i].name).None?
  {
    var f := SetField(g, name, value);
    if |f| == |g| + 1 {
      assert FirstNamed(form, name).None? by {
        assert forall i | 0 <= i < |form| :: form[i].name == g[i].name;
      }
    }
  }

  /** No two appended inputs share a name. */
  lemma {:induction false} ApplyFieldsAppendsDistinct(form: Form, fields: seq<Field>, storage: Store)
    ensures var f := ApplyFields(form, fields, storage);
            forall i, k | |form| <= i < k < |f| :: f[i].name != f[k].name
  {
    if |fields| > 0 {
      var prefix := fields[..|fields| - 1];
      var last := fields[|fields| - 1];
      ApplyFieldsAppendsDistinct(form, prefix, storage);
      ApplyFieldsKeepsInputs(form, prefix, storage);
      AppendsDistinctStep(form, ApplyFields(form, prefix, storage), last.name, Get(storage, last.key));
    }
  }

  /** One more field write appends only a name no input carries yet. */
  lemma AppendsDistinctStep(form: Form, g: Form, name: string, value: string)
    requires |form| <= |g|
    requires forall i, k | |form| <= i < k < |g| :: g[i].name != g[k].name
    ensures var f := SetField(g, name, value);
            forall i, k | |form| <= i < k < |f| :: f[i].name != f[k].name
  {
    var f := SetField(g, name, value);
    if |f| == |g| + 1 {
      assert forall i | 0 <= i < |g| :: g[i].name != name;
    }
  }

  /** The first input named `name` exists and holds `value`. */
  predicate Holds(form: Form, name: string, value: string) {
    FirstNamed(form, name).Some? && form[FirstNamed(form, name).value].value == value
  }

  /** After a field write the first input of that name holds the value written. */
  lemma SetFieldHolds(form: Form, name: string, value: string)
    ensures Holds(SetField(form, name, value), name, value)
  {
  }

  /** Writing one name keeps what the first input of another name holds. */
  lemma HoldsSurvives(form: Form, name: string, value: string, other: string, v: string)
    requires other != name && Holds(form, other, v)
    ensures Holds(SetField(form, name, value), other, v)
  {
    SetFieldKeepsOtherNames(form, name, value, other);
  }

  /**
   * The first input of every field name ends up holding that field's stored
   * value, the empty string when nothing is stored.
   */
  lemma {:induction false} ApplyFieldsWritesValues(form: Form, fields: seq<Field>, storage: Store)
    requires DistinctNames(fields)
    ensures var f := ApplyFields(form, fields, storage);
            forall j | 0 <= j < |fields| :: Holds(f, fields[j].name, Get(storage, fields[j].key))
  {
    if |fields| > 0 {
      var prefix := fields[..|fields| - 1];
      assert forall i | 0 <= i < |prefix| :: prefix[i] == fields[i];
      ApplyFieldsWritesValues(form, prefix, storage);
      WritesValuesStep(ApplyFields(form, prefix, storage), fields, storage);
    }
  }

  /** One more field write keeps the earlier fields' values, given distinct names, and adds its own. */
  lemma WritesValuesStep(g: Form, fields: seq<Field>, storage: Store)
    requires |fields| > 0 && DistinctNames(fields)
    requires forall j | 0 <= j < |fields| - 1 :: Holds(g, fields[j].name, Get(storage, fields[j].key))
    ensures var last := fields[|fields| - 1];
            var f := SetField(g, last.name, Get(storage, last.key));
            forall j | 0 <= j < |fields| :: Holds(f, fields[j].name, Get(storage, fields[j].key))
  {
    var last := fields[|fields| - 1];
    forall j | 0 <= j < |fields|
      ensures Holds(SetField(g, last.name, Get(storage, last.key)), fields[j].name, Get(storage, fields[j].key))
    {
      if j < |fields| - 1 {
        HoldsSurvives(g, last.name, Get(storage, last.key), fields[j].name, Get(storage, fields[j].key));
      } else {
        SetFieldHolds(g, last.name, Get(storage, last.key));
      }
    }
  }

  /** Fields whose first inputs already hold their stored values change nothing. */
  lemma {:induction false} ApplyFieldsFixpoint(form: Form, fields: seq<Field>, storage: Store)
    requires forall j | 0 <= j < |fields| :: Holds(form, fields[j].name, Get(storage, fields[j].key))
    ensures ApplyFields(form, fields, storage) == form
  {
    if |fields| > 0 {
      var prefix := fields[..|fields| - 1];
      var last := fields[|fields| - 1];
      ApplyFieldsFixpoint(form, prefix, storage);
      SetFieldUnchanged(form, last.name, Get(storage, last.key));
    }
  }

  /** The form-field mapping writes distinct names. */
  lemma FieldsDistinct()
    ensures DistinctNames(Fields)
  {
  }

  /** Populating a form a second time with the same storage changes nothing. */
  lemma PopulateFormIdempotent(form: Form, storage: Store)
    ensures PopulateForm(PopulateForm(form, storage), storage) == PopulateForm(form, storage)
  {
    FieldsDistinct();
    ApplyFieldsWritesValues(form, Fields, storage);
    ApplyFieldsFixpoint(PopulateForm(form, storage), Fields, storage);
  }

  /** On a form without the name, a field write appends one hidden input. */
  lemma SetFieldAppends(form: Form, name: string, value: string)
    requires forall i | 0 <= i < |form| :: form[i].name != name
    ensures SetField(form, name, value) == form + [Input(name, value, true)]
  {
  }

  /** On a form lacking every field name, the next field write appends its hidden input. */
  lemma BareFormAppends(form: Form, fields: seq<Field>, storage: Store, g: Form)
    requires |fields| > 0
    requires forall i, j | 0 <= i < |form| && 0 <= j < |fields| :: form[i].name != fields[j].name
    requires DistinctNames(fields)
    requires g == form + Appended(fields[..|fields| - 1], storage)
    ensures var last := fields[|fields| - 1];
            SetField(g, last.name, Get(storage, last.key)) == g + [Input(last.name, Get(storage, last.key), true)]
  {
    var last := fields[|fields| - 1];
    var tail := Appended(fields[..|fields| - 1], storage);
    forall i | 0 <= i < |g| ensures g[i].name != last.name {
      if i >= |form| {
        assert g[i] == tail[i - |form|];
      }
    }
    SetFieldAppends(g, last.name, Get(storage, last.key));
  }

  /** On a form that has none of the field names, populating appends one hidden input per field, in order. */
  lemma {:induction false} ApplyFieldsToBareForm(form: Form, fields: seq<Field>, storage: Store)
    requires forall i, j | 0 <= i < |form| && 0 <= j < |fields| :: form[i].name != fields[j].name
    requires DistinctNames(fields)
    ensures ApplyFields(form, fields, storage) == form + Appended(fields, storage)
  {
    if |fields| > 0 {
      var prefix := fields[..|fields| - 1];
      assert forall i | 0 <= i < |prefix| :: prefix[i] == fields[i];
      ApplyFieldsToBareForm(form, prefix, storage);
      BareFormStep(form, ApplyFields(form, prefix, storage), fields, storage);
    }
  }

  /** On a bare form, the next field write appends the next hidden input. */
  lemma BareFormStep(form: Form, g: Form, fields: seq<Field>, storage: Store)
    requires |fields| > 0
    requires forall i, j | 0 <= i < |form| && 0 <= j < |fields| :: form[i].name != fields[j].name
    requires DistinctNames(fields)
    requires g == form + Appended(fields[..|fields| - 1], storage)
    ensures var last := fields[|fields| - 1];
            SetField(g, last.name, Get(storage, last.key)) == form + Appended(fields, storage)
  {
    var last := fields[|fields| - 1];
    var tail := Appended(fields[..|fields| - 1], storage);
    var x := Input(last.name, Get(storage, last.key), true);
    BareFormAppends(form, fields, storage, g);
    assert Appended(fields, storage) == tail + [x];
    assert g + [x] == form + (tail + [x]);
  }

  /** The hidden inputs appended for fields no input carries. */
  function Appended(fields: seq<Field>, storage: Store): (r: Form)
    ensures |r| == |fields|
    ensures forall j | 0 <= j < |fields| :: r[j] == Input(fields[j].name, Get(storage, fields[j].key), true)
  {
    if |fields| == 0 then []
    else Appended(fields[..|fields| - 1], storage) + [Input(fields[|fields| - 1].name, Get(storage, fields[|fields| - 1].key), true)]
  }
}
