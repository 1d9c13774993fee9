/** The CSRF protection taken from Django's CSRF documentation: the
    safe-method test, the cookie reader and the prefilter that copies the
    `csrftoken` cookie into an `X-CSRFToken` header. */
module Csrf {
  import opened JsValues
  import opened Strings
  import opened Http

  /** The safe methods of section 4.2.1 of RFC 7231, which the CSRF check
      exempts. */
  const SafeMethods: set<string> := {"GET", "HEAD", "OPTIONS", "TRACE"}

  const CsrfCookieName: string := "csrftoken"
  const CsrfHeaderName: string := "X-CSRFToken"

  /** `csrfSafeMethod`: the test `/^(GET|HEAD|OPTIONS|TRACE)$/i`, one
      alternative at a time, each compared with case folded. */
  function CsrfSafeMethod(verb: string): (r: bool)
    ensures r <==> UpperText(verb) in SafeMethods
  {
    assert UpperText("GET") == "GET";
    assert UpperText("HEAD") == "HEAD";
    assert UpperText("OPTIONS") == "OPTIONS";
    assert UpperText("TRACE") == "TRACE";
    || EqualsIgnoringCase(verb, "GET")
    || EqualsIgnoringCase(verb, "HEAD")
    || EqualsIgnoringCase(verb, "OPTIONS")
    || EqualsIgnoringCase(verb, "TRACE")
  }

  /** Lower- and mixed-case spellings of a safe method are safe too. */
  lemma SafeMethodSpellings()
    ensures CsrfSafeMethod("get") && CsrfSafeMethod("Head") && CsrfSafeMethod("options")
  {
    assert UpperText("get") == "GET";
    assert UpperText("Head") == "HEAD";
    assert UpperText("options") == "OPTIONS";
  }

  /** Unsafe methods, in any case, and near-misses of a safe name are not safe. */
  lemma UnsafeMethodSpellings()
    ensures !CsrfSafeMethod("POST") && !CsrfSafeMethod("put") && !CsrfSafeMethod("GET ")
  {
  }

  /** What reading a cookie yields: no such cookie (`null`), its decoded value,
      or the exception `decodeURIComponent` raises on a malformed value. */
  datatype CookieRead = Missing | Found(value: string) | Malformed(encoded: string)

  /** `decodeURIComponent(encoded)`; `decode` yields `None` where it throws. */
  function Decoded(decode: string -> Option<string>, encoded: string): (r: CookieRead)
    ensures r != Missing
  {
    match decode(encoded)
    case Some(v) => Found(v)
    case None => Malformed(encoded)
  }

  /** The test `cookie.substring(0, name.length + 1) == (name + '=')`. The
      substring is clamped to the entry, so the test holds exactly when the
      entry starts with `name=`: a longer name that merely starts with `name`
      does not match, and neither does an entry shorter than `name=`. */
  predicate NamesCookie(entry: string, name: string)
    ensures NamesCookie(entry, name) <==> StartsWith(entry, name + "=")
  {
    Substring(entry, 0, |name| + 1) == name + "="
  }

  /** The encoded value of an entry that names the cookie: what follows `name=`. */
  function RawValue(entry: string, name: string): string {
    SubstringFrom(entry, |name| + 1)
  }

  /** A `;`-separated entry names the cookie once trimmed. */
  predicate EntryNames(entry: string, name: string) {
    NamesCookie(Trim(entry), name)
  }

  /** The encoded value of such an entry. */
  function EntryValue(entry: string, name: string): string {
    RawValue(Trim(entry), name)
  }

  /** No entry names the cookie. */
  predicate NoEntryNames(entries: seq<string>, name: string) {
    forall j :: 0 <= j < |entries| ==> !EntryNames(entries[j], name)
  }

  /** Entry `i` is the first entry that names the cookie. */
  predicate FirstNaming(entries: seq<string>, name: string, i: int) {
    && 0 <= i < |entries|
    && EntryNames(entries[i], name)
    && forall j :: 0 <= j < i ==> !EntryNames(entries[j], name)
  }

  /** The loop of `getCookie` over the `;`-separated entries: the first entry
      that names the cookie, once trimmed, is decoded and the search stops. */
  function FindCookie(entries: seq<string>, name: string, decode: string -> Option<string>): (r: CookieRead)
    ensures r == Missing <==> NoEntryNames(entries, name)
    decreases |entries|
  {
    if |entries| == 0 then
      Missing
    else if EntryNames(entries[0], name) then
      Decoded(decode, EntryValue(entries[0], name))
    else
      SkipNoNaming(entries, name);
      FindCookie(entries[1..], name, decode)
  }

  /** Whenever some entry names the cookie, the search yields the decoded
      value of the first one that does, whatever later entries say. */
  lemma {:induction false} FindCookieFirstMatch(entries: seq<string>, name: string, decode: string -> Option<string>)
    ensures forall i :: FirstNaming(entries, name, i) ==>
      FindCookie(entries, name, decode) == Decoded(decode, EntryValue(entries[i], name))
    decreases |entries|
  {
    if |entries| > 0 {
      if EntryNames(entries[0], name) {
        forall i | FirstNaming(entries, name, i)
          ensures i == 0
        {
        }
      } else {
        FindCookieFirstMatch(entries[1..], name, decode);
        forall i | FirstNaming(entries, name, i)
          ensures FindCookie(entries, name, decode) == Decoded(decode, EntryValue(entries[i], name))
        {
          SkipFirstNaming(entries, name, i);
          assert entries[1..][i - 1] == entries[i];
        }
      }
    }
  }

  /** Past an entry that does not name the cookie, the first entry that does
      moves down by one. */
  lemma SkipFirstNaming(entries: seq<string>, name: string, i: int)
    requires |entries| > 0 && !EntryNames(entries[0], name)
    requires FirstNaming(entries, name, i)
    ensures FirstNaming(entries[1..], name, i - 1)
  {
    var tail := entries[1..];
    forall j | 0 <= j < i - 1
      ensures !EntryNames(tail[j], name)
    {
      assert tail[j] == entries[j + 1];
    }
  }

  /** Past an entry that does not name the cookie, no entry names it exactly
      when none of the remaining ones does. */
  lemma SkipNoNaming(entries: seq<string>, name: string)
    requires |entries| > 0 && !EntryNames(entries[0], name)
    ensures NoEntryNames(entries, name) <==> NoEntryNames(entries[1..], name)
  {
    var tail := entries[1..];
    if NoEntryNames(tail, name) {
      forall j | 0 <= j < |entries|
        ensures !EntryNames(entries[j], name)
      {
        if j > 0 {
          assert entries[j] == tail[j - 1];
        }
      }
    }
    if NoEntryNames(entries, name) {
      forall j | 0 <= j < |tail|
        ensures !EntryNames(tail[j], name)
      {
        assert tail[j] == entries[j + 1];
      }
    }
  }

  /** `getCookie(name)` over the cookie string `cookie`: `null` for an empty
      cookie string, otherwise the search over its `;`-separated entries. The
      result is `null` exactly when the string is empty or none of its
      entries, trimmed, starts with `name=`. */
  function GetCookie(cookie: string, name: string, decode: string -> Option<string>): (r: CookieRead)
    ensures r == Missing <==> cookie == "" || NoEntryNames(Split(cookie, ';'), name)
  {
    if cookie == "" then Missing else FindCookie(Split(cookie, ';'), name, decode)
  }

  /** When some entry names the cookie, `getCookie` yields the decoded value
      of the first entry that does, whatever later entries say. */
  lemma GetCookieFirstMatch(cookie: string, name: string, decode: string -> Option<string>)
    ensures cookie != "" ==> forall i :: FirstNaming(Split(cookie, ';'), name, i) ==>
      GetCookie(cookie, name, decode) == Decoded(decode, EntryValue(Split(cookie, ';')[i], name))
  {
    FindCookieFirstMatch(Split(cookie, ';'), name, decode);
  }

  /** A cookie string built from separator-free entries is read entry by entry:
      the first entry naming the cookie wins and later ones are ignored. */
  lemma {:induction false} GetCookieOfEntries(entries: seq<string>, name: string, decode: string -> Option<string>, i: nat)
    requires |entries| >= 1 && Join(entries, ';') != ""
    requires forall k :: 0 <= k < |entries| ==> !Contains(entries[k], ';')
    requires FirstNaming(entries, name, i)
    ensures GetCookie(Join(entries, ';'), name, decode) == Decoded(decode, EntryValue(entries[i], name))
  {
    SplitJoin(entries, ';');
    FindCookieFirstMatch(entries, name, decode);
  }

  /** In `first; second`, when `first` does not name the cookie and `second`
      does, the value after `name=` in `second` is the one decoded: the space
      after the separator is trimmed away. */
  lemma SecondEntryWins(first: string, second: string, name: string, decode: string -> Option<string>)
    requires !Contains(first, ';') && !Contains(second, ';')
    requires |first| > 0 && !IsSpace(first[0]) && !IsSpace(first[|first| - 1])
    requires |second| > 0 && !IsSpace(second[0]) && !IsSpace(second[|second| - 1])
    requires !NamesCookie(first, name) && NamesCookie(second, name)
    ensures GetCookie(first + "; " + second, name, decode) == Decoded(decode, RawValue(second, name))
  {
    var entries := [first, " " + second];
    assert Join(entries, ';') == first + "; " + second;
    TrimUnchanged(first);
    TrimLeadingSpace(second);
    assert !Contains(" " + second, ';') by {
      forall k | 0 <= k < |" " + second| ensures (" " + second)[k] != ';' {
        if k > 0 {
          assert (" " + second)[k] == second[k - 1];
        }
      }
    }
    assert FirstNaming(entries, name, 1);
    GetCookieOfEntries(entries, name, decode, 1);
  }

  /** An entry `csrftoken=<value>` names the CSRF cookie and holds `value`,
      and it is a single entry with no whitespace at its ends. */
  lemma CsrfEntry(value: string)
    requires !Contains(value, ';') && |value| > 0 && !IsSpace(value[|value| - 1])
    ensures var entry := CsrfCookieName + "=" + value;
      && !Contains(entry, ';') && !IsSpace(entry[0]) && !IsSpace(entry[|entry| - 1])
      && NamesCookie(entry, CsrfCookieName) && RawValue(entry, CsrfCookieName) == value
  {
    var entry := CsrfCookieName + "=" + value;
    assert !Contains(entry, ';') by {
      forall k | 0 <= k < |entry| ensures entry[k] != ';' {
        if k >= 10 {
          assert entry[k] == value[k - 10];
        }
      }
    }
    assert entry[..10] == CsrfCookieName + "=";
    assert entry[10..] == value;
  }

  /** A worked example: `sessionid=abc; csrftoken=xyz` yields the decoding of `xyz`. */
  lemma GetCookieExample(cookie: string, decode: string -> Option<string>)
    requires cookie == "sessionid=abc" + "; " + (CsrfCookieName + "=" + "xyz")
    ensures GetCookie(cookie, CsrfCookieName, decode) == Decoded(decode, "xyz")
  {
    var first, value := "sessionid=abc", "xyz";
    assert first[0] != (CsrfCookieName + "=")[0];
    assert !Contains(first, ';') && !Contains(value, ';');
    CsrfEntry(value);
    SecondEntryWins(first, CsrfCookieName + "=" + value, CsrfCookieName, decode);
  }

  /** An entry whose name only starts with the wanted one is skipped:
      `csrftokenx=1; csrftoken=2` yields the decoding of `2`. */
  lemma GetCookieLongerName(cookie: string, decode: string -> Option<string>)
    requires cookie == "csrftokenx=1" + "; " + (CsrfCookieName + "=" + "2")
    ensures GetCookie(cookie, CsrfCookieName, decode) == Decoded(decode, "2")
  {
    var first, value := "csrftokenx=1", "2";
    assert first[9] != (CsrfCookieName + "=")[9];
    assert !Contains(first, ';') && !Contains(value, ';');
    CsrfEntry(value);
    SecondEntryWins(first, CsrfCookieName + "=" + value, CsrfCookieName, decode);
  }

  /** The value the prefilter hands to `setRequestHeader`: the decoded
      cookie, or `null` when there is none. */
  function HeaderValue(read: CookieRead): (v: Option<string>)
    ensures v.Some? <==> read.Found?
    ensures read.Found? ==> v.value == read.value
  {
    if read.Found? then Some(read.value) else None
  }

  /** Whether the CSRF prefilter sets its header, as the code is written: the
      method is not safe. The origin test reads `this.crossDomain`, but jQuery
      calls a prefilter as a plain function, so in this non-strict script
      `this` is the global object; its `crossDomain` is undefined and the
      test never excludes a request. */
  predicate NeedsCsrfToken(req: Request)
    ensures NeedsCsrfToken(req) <==> UpperText(req.verb) !in SafeMethods
  {
    !CsrfSafeMethod(req.verb)
  }

  /** The rule the prefilter's own comment states: unsafe methods, and only
      to this origin. */
  predicate SameOriginNeedsCsrfToken(req: Request)
    ensures SameOriginNeedsCsrfToken(req) <==> NeedsCsrfToken(req) && !req.crossDomain
  {
    !CsrfSafeMethod(req.verb) && !req.crossDomain
  }

  /** The body of the prefilter once it has decided whether it applies: read
      the `csrftoken` cookie and set `X-CSRFToken` to it, or do nothing and
      leave the cookie unread. A value that fails to decode throws. */
  function SetCsrfHeader(applies: bool, cookie: string, decode: string -> Option<string>): (r: Prefiltered)
    ensures !applies ==> r == Proceed([])
    ensures applies && r.Proceed? ==>
      r.headers == [Header(CsrfHeaderName, HeaderValue(GetCookie(cookie, CsrfCookieName, decode)))]
    ensures r.Throws? <==> applies && GetCookie(cookie, CsrfCookieName, decode).Malformed?
  {
    if applies then
      match GetCookie(cookie, CsrfCookieName, decode)
      case Missing => Proceed([Header(CsrfHeaderName, None)])
      case Found(v) => Proceed([Header(CsrfHeaderName, Some(v))])
      case Malformed(e) => Throws(e)
    else
      Proceed([])
  }

  /** The CSRF prefilter as written: every request with an unsafe method,
      whatever its origin, reads the `csrftoken` cookie and carries it in
      `X-CSRFToken` (`null` when absent); a safe one gets nothing and leaves
      the cookie unread. */
  function CsrfPrefilter(req: Request, cookie: string, decode: string -> Option<string>): (r: Prefiltered)
    ensures CsrfSafeMethod(req.verb) ==> r == Proceed([])
    ensures !CsrfSafeMethod(req.verb) && r.Proceed? ==>
      r.headers == [Header(CsrfHeaderName, HeaderValue(GetCookie(cookie, CsrfCookieName, decode)))]
    ensures r.Throws? <==> !CsrfSafeMethod(req.verb) && GetCookie(cookie, CsrfCookieName, decode).Malformed?
  {
    SetCsrfHeader(NeedsCsrfToken(req), cookie, decode)
  }

  /** The prefilter with the origin test it intends: a cross-origin request
      never reads the cookie and never carries the token, and a same-origin
      request is treated exactly as the code treats it. */
  function SameOriginCsrfPrefilter(req: Request, cookie: string, decode: string -> Option<string>): (r: Prefiltered)
    ensures req.crossDomain ==> r == Proceed([])
    ensures !req.crossDomain ==> r == CsrfPrefilter(req, cookie, decode)
    ensures r.Proceed? ==> (HasHeader(r.headers, CsrfHeaderName) <==> SameOriginNeedsCsrfToken(req))
  {
    var r := SetCsrfHeader(SameOriginNeedsCsrfToken(req), cookie, decode);
    assert r.Proceed? && SameOriginNeedsCsrfToken(req) ==> r.headers[0].name == CsrfHeaderName;
    r
  }

  /** A cookie string holding one `csrftoken` entry is read back as it stands. */
  lemma SingleCsrfCookie(value: string, decode: string -> Option<string>)
    requires !Contains(value, ';') && |value| > 0 && !IsSpace(value[|value| - 1])
    ensures GetCookie(CsrfCookieName + "=" + value, CsrfCookieName, decode) == Decoded(decode, value)
  {
    var entry := CsrfCookieName + "=" + value;
    CsrfEntry(value);
    TrimUnchanged(entry);
    assert FirstNaming([entry], CsrfCookieName, 0);
    assert Join([entry], ';') == entry;
    GetCookieOfEntries([entry], CsrfCookieName, decode, 0);
  }

  /** The token goes to other origins: a cross-origin POST from a page whose
      cookie is `csrftoken=abc` carries `X-CSRFToken: abc`. */
  lemma CrossOriginPostCarriesToken(cookie: string, decode: string -> Option<string>)
    requires cookie == CsrfCookieName + "=" + "abc" && decode("abc") == Some("abc")
    ensures CsrfPrefilter(Request("POST", true), cookie, decode) == Proceed([Header(CsrfHeaderName, Some("abc"))])
  {
    UnsafeMethodSpellings();
    assert !Contains("abc", ';') by {
      assert "abc"[0] != ';' && "abc"[1] != ';' && "abc"[2] != ';';
    }
    SingleCsrfCookie("abc", decode);
  }

  /** With the intended origin test, the same request carries no token. */
  lemma CrossOriginPostCarriesNoToken(cookie: string, decode: string -> Option<string>)
    ensures SameOriginCsrfPrefilter(Request("POST", true), cookie, decode) == Proceed([])
  {
  }
}
