/**
 * The cookie-backed session store, reduced to what the theme route uses:
 * loading a session from the request's cookie, reading and writing a key,
 * and committing the session into a cookie for the response.
 */
module SessionStore {
  import opened Wrappers
  import opened Themes

  /** The session key under which the route keeps the theme. */
  const ThemeKey: string := "theme"

  /**
   * The session as a cookie carries it. Signing, serialisation and the cookie's
   * attributes belong to the framework; only the carried entries are kept.
   */
  datatype Cookie = Cookie(payload: map<string, Theme>)

  /** A session handle: the entries it holds, which `Set` updates in memory only. */
  class Session {
    var data: map<string, Theme>

    /** `getSession(cookie)`: the entries the cookie carries, or an empty session when there is none. */
    constructor Load(cookie: Option<Cookie>)
      ensures data == if cookie.Some? then cookie.value.payload else map[]
    {
      data := if cookie.Some? then cookie.value.payload else map[];
    }

    /** `session.get(key)`: the stored value, or nothing when the key is absent. */
    function Get(key: string): (v: Option<Theme>)
      reads this
      ensures v.Some? <==> key in data
      ensures v.Some? ==> data[key] == v.value
    {
      if key in data then Some(data[key]) else None
    }

    /** `session.set(key, value)`: stores the value under the key and leaves every other key as it was. */
    method Set(key: string, value: Theme)
      modifies this
      ensures data == old(data)[key := value]
    {
      data := data[key := value];
    }

    /** `commitSession(session)`: the cookie that carries the session's current entries. */
    function Commit(): (c: Cookie)
      reads this
      ensures c.payload == data
    {
      Cookie(data)
    }
  }
}
