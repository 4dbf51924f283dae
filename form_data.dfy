/**
 * The submitted form as the route reads it: a list of named entries in
 * submission order, each either a string or an uploaded file.
 */
module FormData {
  import opened Wrappers

  /** The value of one form entry: text, or a file (any value that is not a string). */
  datatype FormValue = Text(text: string) | File(fileName: string)

  /** The entries of a submitted form, in order; a name may occur more than once. */
  type Form = seq<(string, FormValue)>

  /** Entry `i` is the first entry of the form named `name`. */
  predicate FirstNamed(form: Form, name: string, i: nat)
    requires i < |form|
  {
    form[i].0 == name && forall j :: 0 <= j < i ==> form[j].0 != name
  }

  /** `formData.get(name)`: the value of the first entry with that name, or nothing. */
  function Get(form: Form, name: string): Option<FormValue> {
    if form == [] then None
    else if form[0].0 == name then Some(form[0].1)
    else Get(form[1..], name)
  }

  /** `Get` finds nothing exactly when no entry has the name, and otherwise the value of the first entry that has it. */
  lemma {:induction false} GetFindsFirst(form: Form, name: string)
    ensures Get(form, name).None? <==> forall i :: 0 <= i < |form| ==> form[i].0 != name
    ensures Get(form, name).Some? ==>
      exists i :: 0 <= i < |form| && FirstNamed(form, name, i) && form[i].1 == Get(form, name).value
  {
    if form != [] && form[0].0 != name {
      var rest := form[1..];
      GetFindsFirst(rest, name);
      forall i | 0 < i < |form| ensures form[i] == rest[i - 1] { }
      if Get(rest, name).Some? {
        var i :| 0 <= i < |rest| && FirstNamed(rest, name, i) && rest[i].1 == Get(rest, name).value;
        assert FirstNamed(form, name, i + 1);
      }
    } else if form != [] {
      assert FirstNamed(form, name, 0);
    }
  }

  /** Entries with other names, before or after, do not change what `Get` reports for a name. */
  lemma {:induction false} GetIgnoresOtherNames(before: Form, after: Form, name: string, v: FormValue)
    requires forall i :: 0 <= i < |before| ==> before[i].0 != name
    ensures Get(before + [(name, v)] + after, name) == Some(v)
  {
    var form := before + [(name, v)] + after;
    if before != [] {
      assert before[0].0 != name;
      assert form[1..] == before[1..] + [(name, v)] + after;
      GetIgnoresOtherNames(before[1..], after, name, v);
    }
  }
}
