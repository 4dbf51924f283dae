/**
 * The theme route: its loader, which reads the stored theme, and its action,
 * which picks a preset or validates five submitted colours and stores the
 * result in the session.
 */
module ThemeRoute {
  import opened Wrappers
  import opened Themes
  import opened FormData
  import opened SessionStore

  /** The form field that selects a preset. */
  const ActionField: string := "_action"

  /** Where a successful update redirects: the route itself. */
  const RoutePath: string := "/demos/theme"

  /** What the action answers: an inline message, or a redirect that sets the session cookie. */
  datatype Response = Json(message: string) | Redirect(location: string, setCookie: Cookie)

  /** The decision the action takes for a form: the first missing colour, or the theme to store. */
  datatype Outcome = Rejected(missing: Key) | Stored(theme: Theme)

  /** The submitted value of one colour field. */
  function Field(form: Form, k: Key): Option<FormValue> {
    FormData.Get(form, KeyName(k))
  }

  /** A colour value passes the check when it is present, is a string and is not empty. */
  predicate Acceptable(v: Option<FormValue>) {
    v.Some? && v.value.Text? && v.value.text != ""
  }

  /** The form asks for the light preset. */
  predicate AsksReset(form: Form) {
    FormData.Get(form, ActionField) == Some(Text("reset"))
  }

  /** The form asks for the dark preset. */
  predicate AsksDark(form: Form) {
    FormData.Get(form, ActionField) == Some(Text("dark"))
  }

  /** The message that reports a missing colour. */
  function MissingColor(k: Key): string {
    "missing color " + KeyName(k) + " in input"
  }

  /** The key named inside a missing-colour message: the name sits between a fixed prefix and suffix. */
  lemma MissingColorNamesKey(k: Key)
    ensures |MissingColor(k)| >= 23
    ensures MissingColor(k)[14..|MissingColor(k)| - 9] == KeyName(k)
  {
  }

  /** Different keys give different messages, so the message tells which colour is missing. */
  lemma MissingColorInjective(j: Key, k: Key)
    requires MissingColor(j) == MissingColor(k)
    ensures j == k
  {
    MissingColorNamesKey(j);
    MissingColorNamesKey(k);
    KeyNameInjective(j, k);
  }

  /** Every key in `keys` has a value that passes the check. */
  predicate AllAccepted(form: Form, keys: seq<Key>) {
    forall i :: 0 <= i < |keys| ==> Acceptable(Field(form, keys[i]))
  }

  /** Key `keys[i]` fails the check and every key before it passes. */
  predicate FirstRejected(form: Form, keys: seq<Key>, i: nat)
    requires i < |keys|
  {
    !Acceptable(Field(form, keys[i])) && AllAccepted(form, keys[..i])
  }

  /**
   * The custom-theme loop run over `keys` in order: the entries gathered for
   * all of them, or the first key whose value fails the check.
   */
  function Collect(form: Form, keys: seq<Key>): (r: Result<map<Key, Color>, Key>)
    ensures r.Success? <==> AllAccepted(form, keys)
    ensures r.Success? ==> forall k: Key :: k in r.value <==> k in keys
    ensures r.Success? ==> forall k :: k in r.value ==> Field(form, k) == Some(Text(r.value[k]))
    ensures r.Failure? ==>
      exists i :: 0 <= i < |keys| && keys[i] == r.error && FirstRejected(form, keys, i)
    decreases |keys|
  {
    if keys == [] then Success(map[])
    else
      var init, last := keys[..|keys| - 1], keys[|keys| - 1];
      assert keys == init + [last];
      match Collect(form, init)
      case Failure(e) =>
        var i :| 0 <= i < |init| && init[i] == e && FirstRejected(form, init, i);
        assert keys[..i] == init[..i];
        assert keys[i] == e && FirstRejected(form, keys, i);
        assert !AllAccepted(form, keys);
        Failure(e)
      case Success(m) =>
        var v := Field(form, last);
        if Acceptable(v) then
          assert AllAccepted(form, keys) by {
            forall i | 0 <= i < |keys| ensures Acceptable(Field(form, keys[i])) {
              if i < |init| { assert keys[i] == init[i]; }
            }
          }
          Success(m[last := v.value.text])
        else
          assert keys[..|keys| - 1] == init;
          assert FirstRejected(form, keys, |keys| - 1);
          Failure(last)
  }

  /** One more step of the loop: checking key `keys[n]` after the first `n` keys have passed. */
  lemma CollectStep(form: Form, keys: seq<Key>, n: nat, m: map<Key, Color>)
    requires n < |keys|
    requires Collect(form, keys[..n]) == Success(m)
    ensures Acceptable(Field(form, keys[n])) ==>
      Collect(form, keys[..n + 1]) == Success(m[keys[n] := Field(form, keys[n]).value.text])
    ensures !Acceptable(Field(form, keys[n])) ==> Collect(form, keys[..n + 1]) == Failure(keys[n])
  {
    var longer := keys[..n + 1];
    assert longer[..|longer| - 1] == keys[..n];
    assert longer[|longer| - 1] == keys[n];
  }

  /** Once a prefix of the keys fails, checking further keys reports the same failure. */
  lemma {:induction false} CollectStopsAtFailure(form: Form, keys: seq<Key>, n: nat)
    requires n <= |keys|
    requires Collect(form, keys[..n]).Failure?
    ensures Collect(form, keys) == Collect(form, keys[..n])
    decreases |keys|
  {
    if n < |keys| {
      var init := keys[..|keys| - 1];
      assert init[..n] == keys[..n];
      CollectStopsAtFailure(form, init, n);
    } else {
      assert keys[..n] == keys;
    }
  }

  /**
   * The action's decision. `reset` and `dark` pick a preset whatever else was
   * submitted; any other `_action`, or none, builds a custom theme from the
   * five colour fields, checked in the light preset's key order.
   */
  function Decide(form: Form): (o: Outcome)
    ensures AsksReset(form) ==> o == Stored(DefaultTheme)
    ensures AsksDark(form) ==> o == Stored(DarkTheme)
    ensures !AsksReset(form) && !AsksDark(form) ==>
      (o.Stored? <==> forall k: Key :: Acceptable(Field(form, k)))
    ensures !AsksReset(form) && !AsksDark(form) && o.Stored? ==>
      forall k: Key :: Field(form, k) == Some(Text(ColorOf(o.theme, k)))
    ensures !AsksReset(form) && !AsksDark(form) && o.Rejected? ==>
      FirstRejected(form, KeyOrder, IndexOf(o.missing))
    ensures o.Stored? ==> Filled(o.theme)
  {
    PresetsFilled();
    KeyOrderEnumeratesKeys();
    if AsksReset(form) then Stored(DefaultTheme)
    else if AsksDark(form) then Stored(DarkTheme)
    else
      match Collect(form, KeyOrder)
      case Failure(k) =>
        var i :| 0 <= i < |KeyOrder| && KeyOrder[i] == k && FirstRejected(form, KeyOrder, i);
        assert i == IndexOf(k);
        Rejected(k)
      case Success(m) =>
        assert forall k: Key :: Acceptable(Field(form, k)) by {
          forall k: Key ensures Acceptable(Field(form, k)) {
            assert KeyOrder[IndexOf(k)] == k;
          }
        }
        Stored(FromEntries(m))
  }

  /** The route's loader: the session's stored theme, or the light preset when none is stored. */
  function Loader(session: Session): (t: Theme)
    reads session
    ensures session.Get(ThemeKey).Some? ==> t == session.Get(ThemeKey).value
    ensures session.Get(ThemeKey).None? ==> t == DefaultTheme
  {
    match session.Get(ThemeKey)
    case Some(theme) => theme
    case None => DefaultTheme
  }

  /** Reporting is by the earliest failing key: a failing key with every earlier key passing is the one rejected. */
  lemma EarliestFailureReported(form: Form, k: Key)
    requires !AsksReset(form) && !AsksDark(form)
    requires FirstRejected(form, KeyOrder, IndexOf(k))
    ensures Decide(form) == Rejected(k)
  {
    var j := IndexOf(k);
    var prefix := KeyOrder[..j + 1];
    assert prefix[..|prefix| - 1] == KeyOrder[..j];
    assert Collect(form, prefix) == Failure(k);
    CollectStopsAtFailure(form, KeyOrder, j + 1);
  }

  /** The form the page submits for a theme with its Save button: the five colour inputs and no `_action`. */
  function FormOf(t: Theme): Form {
    [ ("foreground", Text(t.foreground)),
      ("background", Text(t.background)),
      ("links", Text(t.links)),
      ("links-hover", Text(t.linksHover)),
      ("border", Text(t.border)) ]
  }

  /** Submitting a theme whose colours are all non-empty stores exactly that theme. */
  lemma SubmittedThemeIsStored(t: Theme)
    requires Filled(t)
    ensures Decide(FormOf(t)) == Stored(t)
  {
    var form := FormOf(t);
    GetFindsFirst(form, ActionField);
    assert FormData.Get(form, ActionField) == None;
    forall k: Key ensures Field(form, k) == Some(Text(ColorOf(t, k))) {
      var p := match k
        case Foreground => 0 case Background => 1 case Links => 2 case LinksHover => 3 case Border => 4;
      assert form[p] == (KeyName(k), Text(ColorOf(t, k)));
      assert form == form[..p] + [form[p]] + form[p + 1..];
      GetIgnoresOtherNames(form[..p], form[p + 1..], KeyName(k), Text(ColorOf(t, k)));
    }
    ThemeExtensionality(Decide(form).theme, t);
  }

  /** Either preset, submitted field by field as a custom theme, passes the check and is stored unchanged. */
  lemma PresetsPassCustomCheck()
    ensures Decide(FormOf(DefaultTheme)) == Stored(DefaultTheme)
    ensures Decide(FormOf(DarkTheme)) == Stored(DarkTheme)
  {
    PresetsFilled();
    SubmittedThemeIsStored(DefaultTheme);
    SubmittedThemeIsStored(DarkTheme);
  }

  /**
   * The route's action on a session handle and a submitted form. On a missing
   * colour it answers with the message and leaves the session alone; otherwise
   * it stores the new theme under the theme key, and only there, and redirects
   * to the route with the committed session.
   */
  method Action(session: Session, form: Form) returns (r: Response)
    modifies session
    ensures Decide(form).Rejected? ==>
      r == Json(MissingColor(Decide(form).missing)) && session.data == old(session.data)
    ensures Decide(form).Stored? ==>
      session.data == old(session.data)[ThemeKey := Decide(form).theme] &&
      r == Redirect(RoutePath, session.Commit()) &&
      Loader(session) == Decide(form).theme
  {
    var action := FormData.Get(form, ActionField);
    var newTheme: Theme;
    if action == Some(Text("reset")) {
      newTheme := DefaultTheme;
      assert Decide(form) == Stored(newTheme);
    } else if action == Some(Text("dark")) {
      newTheme := DarkTheme;
      assert Decide(form) == Stored(newTheme);
    } else {
      var partial: map<Key, Color> := map[];
      var i := 0;
      while i < |KeyOrder|
        invariant 0 <= i <= |KeyOrder|
        invariant Collect(form, KeyOrder[..i]) == Success(partial)
        invariant session.data == old(session.data)
      {
        var key := KeyOrder[i];
        var color := FormData.Get(form, KeyName(key));
        CollectStep(form, KeyOrder, i, partial);
        if !(color.Some? && color.value.Text? && color.value.text != "") {
          CollectStopsAtFailure(form, KeyOrder, i + 1);
          assert Decide(form) == Rejected(key);
          r := Json(MissingColor(key));
          return;
        }
        partial := partial[key := color.value.text];
        i := i + 1;
      }
      assert KeyOrder[..i] == KeyOrder;
      KeyOrderEnumeratesKeys();
      newTheme := FromEntries(partial);
      assert Decide(form) == Stored(newTheme);
    }
    session.Set(ThemeKey, newTheme);
    r := Redirect(RoutePath, session.Commit());
  }

  /** The five distinct colours of the worked example. */
  const SampleTheme: Theme := Theme(
    foreground := "#111111",
    background := "#222222",
    links := "#333333",
    linksHover := "#444444",
    border := "#555555")

  /**
   * A custom submission whose background colour fails the check is rejected
   * for the background, whatever the foreground and the other colours are:
   * the key order checks the background first.
   */
  lemma BackgroundCheckedFirst(form: Form)
    requires !AsksReset(form) && !AsksDark(form)
    requires !Acceptable(Field(form, Background))
    ensures Decide(form) == Rejected(Background)
  {
    assert KeyOrder[..IndexOf(Background)] == [];
    EarliestFailureReported(form, Background);
  }

  /**
   * A browser with any session saves a theme whose colours are all non-empty,
   * sends back the cookie it received on its next request, and the loader then
   * shows exactly that theme.
   */
  method SaveThenReload(t: Theme, cookie: Option<Cookie>) returns (shown: Theme)
    requires Filled(t)
    ensures shown == t
  {
    var session := new Session.Load(cookie);
    SubmittedThemeIsStored(t);
    var response := Action(session, FormOf(t));
    var next := new Session.Load(Some(response.setCookie));
    shown := Loader(next);
  }

  /**
   * The worked example: a browser with no session is first shown the light
   * preset; it saves the sample colours and, on its next request with the
   * cookie it received, is shown exactly those colours.
   */
  method SaveSampleFromFreshBrowser() returns (before: Theme, after: Theme)
    ensures before == DefaultTheme
    ensures after == SampleTheme
  {
    var start := new Session.Load(None);
    before := Loader(start);
    SubmittedThemeIsStored(SampleTheme);
    var response := Action(start, FormOf(SampleTheme));
    var next := new Session.Load(Some(response.setCookie));
    after := Loader(next);
  }
}
