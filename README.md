# Theme route of the dynamic-CSS demo, modelled in Dafny

The demo lets a browser pick a colour theme and keeps it in a signed,
cookie-backed session. This project models the heart of the theme route:

- the `Theme` record, with its five colour fields, and the two presets
  `defaultTheme` (light) and `darkTheme` (module `Themes`, `themes.dfy`);
- the submitted form as the route reads it, where `formData.get(name)` yields
  the first entry with that name (module `FormData`, `form_data.dfy`);
- the session handle the route reads, writes and commits (class
  `SessionStore.Session`, `session.dfy`);
- the route's `loader` and `action` (module `ThemeRoute`, `theme_route.dfy`).

`ThemeRoute.Action` is a method on a session handle. It chooses a preset for
`_action` values `reset` and `dark`. For any other value, or none, it walks the
light preset's keys in order (`background`, `border`, `foreground`, `links`,
`links-hover`) and fills a partial record inside a `while` loop. At the first
colour that is missing, not a string, or empty, it returns
`missing color <key> in input` and leaves the session alone. Otherwise it
stores the complete record under `"theme"` and redirects to `/demos/theme`
with the committed session. The method is proved against the pure function
`ThemeRoute.Decide`. The loop is proved against `ThemeRoute.Collect`, which is
that loop written as a recursion on the last key.

Points of the code's behaviour worth knowing:
- Validation checks `background` first. This is because `Object.keys(defaultTheme)` lists the keys in the order in which the literal declares them (app/themes.ts:17-23); see `ThemeRoute.BackgroundCheckedFirst`.
- A successful update redirects to `/demos/theme`.
- Any `_action` value other than the strings `reset` and `dark` builds a custom theme. That includes a file and no value at all.

## Model

| member | source | states |
|---|---|---|
| `Themes.KeyName` | app/themes.ts:1-7 | the property name of each of the five fields, as the record and the form spell it: `foreground`, `background`, `links`, `links-hover` (with its hyphen), `border` |
| `Themes.KeyNameInjective` | app/themes.ts:1-7 | the five property names are distinct, so a name determines its field |
| `Themes.KeyOrder` | app/themes.ts:17-23 | `Object.keys(defaultTheme)`: the keys in the order in which the light preset's literal lists them, `background`, `border`, `foreground`, `links`, `links-hover` |
| `Themes.DarkTheme` | app/themes.ts:9-15 | the dark preset: background `#000000`, border `#404040`, foreground `#ffffff`, links `#75b3ff`, links-hover `#99c7ff` |
| `Themes.DefaultTheme` | app/themes.ts:17-23 | the light preset: background `#ffffff`, border `#d1d1d1`, foreground `#121212`, links `#0a78ff`, links-hover `#0063db` |
| `Themes.ThemeExtensionality` | app/themes.ts:1-7 | a theme is exactly its five fields: two themes that agree on every key are equal |
| `Themes.FromEntries` | app/routes/demos/theme.tsx:41-48 | a complete set of entries, one for every key, turns into the record whose every field is the entry for that key |
| `Themes.IndexOf` | app/themes.ts:17-23 | every key has a position in the light preset's key order |
| `Themes.KeyOrderEnumeratesKeys` | app/themes.ts:17-23 | the key order is `background`, `border`, `foreground`, `links`, `links-hover`, and it lists each of the five keys exactly once |
| `Themes.PresetsFilled` | app/themes.ts:9-23 | every colour of both presets is a non-empty string, and the two presets differ |
| `FormData.Get` | app/routes/demos/theme.tsx:32 | `formData.get(name)`: the value of the first entry with that name, or nothing when there is none (its properties are stated by `FormData.GetFindsFirst`) |
| `FormData.GetFindsFirst` | app/routes/demos/theme.tsx:32 | `formData.get` yields nothing exactly when no entry has the name, and otherwise the value of the first entry with that name |
| `FormData.GetIgnoresOtherNames` | app/routes/demos/theme.tsx:43 | entries with other names, before or after, do not change the value read for a name |
| `SessionStore.Session.Load` | app/routes/demos/theme.tsx:17 | loading from a cookie gives the entries it carries; with no cookie the session is empty |
| `SessionStore.Session.Get` | app/routes/demos/theme.tsx:19 | `session.get` yields the stored value exactly when the key is present |
| `SessionStore.Session.Set` | app/routes/demos/theme.tsx:51 | `session.set` stores the value under its key and changes no other key |
| `SessionStore.Session.Commit` | app/routes/demos/theme.tsx:55 | the committed cookie carries exactly the session's current entries, so loading it restores them |
| `ThemeRoute.Acceptable` | app/routes/demos/theme.tsx:44 | the negation of the rejection test (`color` is not a string, or is empty): the value is present, is a string rather than a file, and is not empty |
| `ThemeRoute.AsksReset` | app/routes/demos/theme.tsx:36 | `action === "reset"`: the first `_action` entry is the string `reset` |
| `ThemeRoute.AsksDark` | app/routes/demos/theme.tsx:38 | `action === "dark"`: the first `_action` entry is the string `dark` |
| `ThemeRoute.MissingColor` | app/routes/demos/theme.tsx:45 | the template `missing color ${key} in input` filled with the key's property name |
| `ThemeRoute.MissingColorNamesKey` | app/routes/demos/theme.tsx:45 | the rejection message holds the failing key's name between the fixed prefix `missing color ` and the suffix ` in input` |
| `ThemeRoute.MissingColorInjective` | app/routes/demos/theme.tsx:45 | different keys give different messages, so the message tells which colour is missing |
| `ThemeRoute.Collect` | app/routes/demos/theme.tsx:41-48 | the loop over a sequence of keys succeeds exactly when every key's value is present, a string and non-empty; on success it holds an entry for exactly those keys, each equal to the submitted string; on failure it reports a key that fails while every earlier key passes |
| `ThemeRoute.CollectStep` | app/routes/demos/theme.tsx:42-47 | one loop iteration: after the first n keys pass, key n either adds its submitted string or becomes the reported failure |
| `ThemeRoute.CollectStopsAtFailure` | app/routes/demos/theme.tsx:44-45 | once a prefix of the keys fails, the whole walk reports that same failure: later keys are never examined |
| `ThemeRoute.Decide` | app/routes/demos/theme.tsx:32-49 | `reset` yields the light preset and `dark` the dark preset, whatever else was submitted; otherwise a theme is stored exactly when all five colours pass the check, with every field equal to the submitted string; otherwise the reported key is the first failing one in key order; every stored theme has only non-empty colours |
| `ThemeRoute.EarliestFailureReported` | app/routes/demos/theme.tsx:42-45 | converse of the ordering clause: a failing key with every earlier key passing is the key that is rejected |
| `ThemeRoute.BackgroundCheckedFirst` | app/routes/demos/theme.tsx:42-45 | a custom submission with a bad background colour is rejected for the background, whatever the foreground and the other colours are |
| `ThemeRoute.SubmittedThemeIsStored` | app/routes/demos/theme.tsx:41-48 | round trip: submitting a theme's five non-empty colours through the page's inputs, with no `_action`, stores exactly that theme |
| `ThemeRoute.PresetsPassCustomCheck` | app/themes.ts:9-23 | either preset, submitted field by field as a custom theme, passes validation and is stored unchanged |
| `ThemeRoute.Loader` | app/routes/demos/theme.tsx:16-22 | the loader yields the stored theme when one is stored and the light preset otherwise |
| `ThemeRoute.Action` | app/routes/demos/theme.tsx:27-58 | on a rejection the response is the message for the first failing key and the session is unchanged; otherwise the session gains the decided theme under `"theme"` with every other key unchanged, the response redirects to `/demos/theme` with the committed session, and the loader then yields that theme |
| `ThemeRoute.SaveThenReload` | app/routes/demos/theme.tsx:16-58 | end to end, for every theme whose five colours are non-empty and whatever session the browser starts with: saving it, sending back the cookie received, and loading shows exactly that theme |
| `ThemeRoute.SaveSampleFromFreshBrowser` | app/routes/demos/theme.tsx:16-58 | worked example: a browser with no session is first shown the light preset (`before`); it saves `#111111` … `#555555` and, with the cookie it received, is then shown exactly those colours (`after`) |

## Left out

- Cookie signing, the `COOKIE_SECRET` start-up check, the cookie attributes (`path`, `httpOnly`, `secure`) and `destroySession` in app/session.server.ts. The model keeps only what a cookie carries. Rejecting a tampered or unsigned cookie, which the framework turns into an empty session, is therefore not modelled.
- Session values other than themes. The session maps keys to `Theme` values only, because this route is the only writer of its signed cookie. So the loader's `theme || defaultTheme` is modelled as "stored theme, else default": a stored theme object is always truthy.
- The concurrent join `Promise.all` of the session read and the form parse. Both are inputs to `ThemeRoute.Action`, and a failure of `request.formData()` is not modelled.
- The framework's `json` and `redirect` responses. They become the `ThemeRoute.Response` datatype, without HTTP status codes, headers or body encoding.
- `newTheme = defaultTheme` stores a reference to the shared preset object. The model stores the value. Nothing mutates the presets, so the difference is not observable.
- The React component `ThemesDemo` and `meta`: rendering only. `ThemeRoute.FormOf` stands in for the inputs the page submits with its Save button.
- The stylesheet route app/routes/demos/custom-theme[.]css.ts is not part of this model.
