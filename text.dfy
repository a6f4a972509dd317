/**
 * Character-level text helpers shared by the three scrapers: Python's
 * `str.strip()`, `str.lower()`, `str.isprintable()` filtering
 * (`sanitize_string`) and the title key `strip().lower()` used by the
 * deduplication ledger.
 *
 * `str.isspace` is a small fixed set of code points and is written out
 * exactly. `str.isprintable` and the per-character lower-case mapping come
 * from Python's Unicode tables; they are the two fields of a `Unicode`
 * record that every caller passes in.
 */
module Text {

  datatype Option<+T> = None | Some(value: T)

  /** A Python truth test on an optional string: present and non-empty. */
  predicate Truthy(v: Option<string>)
  {
    v.Some? && v.value != ""
  }

  /** The Unicode tables the scrapers consult. */
  datatype Unicode = Unicode(isPrintable: char -> bool, lower: char -> char)

  /**
   * What the title key relies on about lower-casing: lower-casing a
   * lower-case character changes nothing, and it neither creates nor
   * removes whitespace.
   */
  predicate CaseFoldSound(u: Unicode)
  {
    forall c :: u.lower(u.lower(c)) == u.lower(c) && (IsSpace(u.lower(c)) <==> IsSpace(c))
  }

  /** Python's `str.isspace()` for one character (also what `\s` matches in `re`). */
  predicate IsSpace(c: char)
  {
    || ('\t' <= c <= '\r')
    || ('\U{1C}' <= c <= '\U{1F}')
    || c == ' ' || c == '\U{85}' || c == '\U{A0}' || c == '\U{1680}'
    || ('\U{2000}' <= c <= '\U{200A}')
    || c == '\U{2028}' || c == '\U{2029}' || c == '\U{202F}' || c == '\U{205F}'
    || c == '\U{3000}'
  }

  predicate AllSpace(s: string)
  {
    forall i :: 0 <= i < |s| ==> IsSpace(s[i])
  }

  /** An ASCII decimal digit (what `\d` and `int()` accept in the model). */
  predicate IsDigit(c: char)
  {
    '0' <= c <= '9'
  }

  /** `s.lstrip()` */
  function TrimLeft(s: string): (r: string)
    ensures |r| <= |s| && r == s[|s| - |r|..]
    ensures forall i :: 0 <= i < |s| - |r| ==> IsSpace(s[i])
    ensures r != [] ==> !IsSpace(r[0])
  {
    if s != [] && IsSpace(s[0]) then TrimLeft(s[1..]) else s
  }

  /** `s.rstrip()` */
  function TrimRight(s: string): (r: string)
    ensures |r| <= |s| && r == s[..|r|]
    ensures forall i :: |r| <= i < |s| ==> IsSpace(s[i])
    ensures r != [] ==> !IsSpace(r[|r| - 1])
  {
    if s != [] && IsSpace(s[|s| - 1]) then TrimRight(s[..|s| - 1]) else s
  }

  /** `s.strip()` */
  function Strip(s: string): (r: string)
    ensures |r| <= |s|
    ensures r != [] ==> !IsSpace(r[0]) && !IsSpace(r[|r| - 1])
  {
    TrimRight(TrimLeft(s))
  }

  /** `s.lower()`, one character at a time. */
  function Lower(u: Unicode, s: string): (r: string)
    ensures |r| == |s|
  {
    seq(|s|, i requires 0 <= i < |s| => u.lower(s[i]))
  }

  /** The deduplication key of a title: `title.strip().lower()`. */
  function TitleKey(u: Unicode, title: string): string
  {
    Lower(u, Strip(title))
  }

  /** `sanitize_string`: keep the printable characters, in order. */
  function Sanitize(u: Unicode, s: string): (r: string)
    ensures |r| <= |s|
    ensures forall i :: 0 <= i < |r| ==> u.isPrintable(r[i])
  {
    if s == [] then []
    else (if u.isPrintable(s[0]) then [s[0]] else []) + Sanitize(u, s[1..])
  }

  /** Python's `p in s` for strings: `p` occurs as a substring of `s`. */
  predicate Contains(s: string, p: string)
  {
    exists i :: 0 <= i <= |s| - |p| && OccursAt(s, p, i)
  }

  predicate OccursAt(s: string, p: string, i: int)
    requires 0 <= i <= |s| - |p|
  {
    s[i..i + |p|] == p
  }

  /** `sep.join(parts)` */
  function Join(sep: string, parts: seq<string>): string
  {
    if parts == [] then ""
    else if |parts| == 1 then parts[0]
    else parts[0] + sep + Join(sep, parts[1..])
  }

  // ---------------------------------------------------------------------
  // Stripping

  /** Leading whitespace never changes what `lstrip()` returns. */
  lemma {:induction false} TrimLeftPadded(p: string, s: string)
    requires AllSpace(p)
    ensures TrimLeft(p + s) == TrimLeft(s)
  {
    if p != [] {
      assert (p + s)[0] == p[0] && IsSpace(p[0]);
      assert (p + s)[1..] == p[1..] + s;
      TrimLeftPadded(p[1..], s);
    } else {
      assert p + s == s;
    }
  }

  /** Trailing whitespace never changes what `rstrip()` returns. */
  lemma {:induction false} TrimRightPadded(s: string, q: string)
    requires AllSpace(q)
    ensures TrimRight(s + q) == TrimRight(s)
  {
    if q != [] {
      assert (s + q)[|s + q| - 1] == q[|q| - 1] && IsSpace(q[|q| - 1]);
      assert (s + q)[..|s + q| - 1] == s + q[..|q| - 1];
      TrimRightPadded(s, q[..|q| - 1]);
    } else {
      assert s + q == s;
    }
  }

  lemma TrimLeftBlank(s: string)
    requires AllSpace(s)
    ensures TrimLeft(s) == []
  {
    TrimLeftPadded(s, []);
    assert s + [] == s;
  }

  /** What follows the first non-space character is kept by `lstrip()`. */
  lemma {:induction false} TrimLeftAppend(s: string, q: string)
    ensures TrimLeft(s) != [] ==> TrimLeft(s + q) == TrimLeft(s) + q
    ensures TrimLeft(s) == [] && AllSpace(q) ==> TrimLeft(s + q) == []
  {
    if s == [] {
      assert s + q == q;
      if AllSpace(q) {
        TrimLeftBlank(q);
      }
    } else {
      assert (s + q)[0] == s[0];
      if IsSpace(s[0]) {
        assert (s + q)[1..] == s[1..] + q;
        TrimLeftAppend(s[1..], q);
      }
    }
  }

  lemma StripPadded(p: string, s: string, q: string)
    requires AllSpace(p) && AllSpace(q)
    ensures Strip(p + s + q) == Strip(s)
  {
    assert p + s + q == p + (s + q);
    TrimLeftPadded(p, s + q);
    TrimLeftAppend(s, q);
    if TrimLeft(s) != [] {
      TrimRightPadded(TrimLeft(s), q);
    }
  }

  /** A string without surrounding whitespace is its own `strip()`. */
  lemma StripTrimmed(s: string)
    requires s != [] ==> !IsSpace(s[0]) && !IsSpace(s[|s| - 1])
    ensures Strip(s) == s
  {
  }

  lemma StripIdempotent(s: string)
    ensures Strip(Strip(s)) == Strip(s)
  {
    StripTrimmed(Strip(s));
  }

  /** `strip()` yields the empty string exactly for blank input. */
  lemma StripEmptyIffBlank(s: string)
    ensures Strip(s) == [] <==> AllSpace(s)
  {
    if AllSpace(s) {
      TrimLeftBlank(s);
    }
    var t := TrimLeft(s);
    var r := TrimRight(t);
    assert t != [] ==> !IsSpace(t[0]);
  }

  // Lower-casing

  lemma LowerAppend(u: Unicode, a: string, b: string)
    ensures Lower(u, a + b) == Lower(u, a) + Lower(u, b)
  {
  }

  lemma LowerIdempotent(u: Unicode, s: string)
    requires CaseFoldSound(u)
    ensures Lower(u, Lower(u, s)) == Lower(u, s)
  {
  }

  lemma {:induction false} TrimLeftLower(u: Unicode, s: string)
    requires CaseFoldSound(u)
    ensures TrimLeft(Lower(u, s)) == Lower(u, TrimLeft(s))
  {
    if s != [] {
      assert Lower(u, s)[0] == u.lower(s[0]);
      assert Lower(u, s)[1..] == Lower(u, s[1..]);
      TrimLeftLower(u, s[1..]);
    }
  }

  lemma {:induction false} TrimRightLower(u: Unicode, s: string)
    requires CaseFoldSound(u)
    ensures TrimRight(Lower(u, s)) == Lower(u, TrimRight(s))
  {
    if s != [] {
      assert Lower(u, s)[|s| - 1] == u.lower(s[|s| - 1]);
      assert Lower(u, s)[..|s| - 1] == Lower(u, s[..|s| - 1]);
      TrimRightLower(u, s[..|s| - 1]);
    }
  }

  /** Lower-casing and stripping commute when lower-casing keeps whitespace whitespace. */
  lemma StripLower(u: Unicode, s: string)
    requires CaseFoldSound(u)
    ensures Strip(Lower(u, s)) == Lower(u, Strip(s))
  {
    TrimLeftLower(u, s);
    TrimRightLower(u, TrimLeft(s));
  }

  // ---------------------------------------------------------------------
  // Title keys

  /** Normalising an already normalised key leaves it unchanged. */
  lemma TitleKeyIdempotent(u: Unicode, title: string)
    requires CaseFoldSound(u)
    ensures TitleKey(u, TitleKey(u, title)) == TitleKey(u, title)
  {
    StripLower(u, Strip(title));
    StripIdempotent(title);
    LowerIdempotent(u, Strip(title));
  }

  /** Titles that differ only by surrounding whitespace share a key. */
  lemma TitleKeyIgnoresPadding(u: Unicode, p: string, title: string, q: string)
    requires AllSpace(p) && AllSpace(q)
    ensures TitleKey(u, p + title + q) == TitleKey(u, title)
  {
    StripPadded(p, title, q);
  }

  /** Titles that differ only by case share a key. */
  lemma TitleKeyIgnoresCase(u: Unicode, title: string)
    requires CaseFoldSound(u)
    ensures TitleKey(u, Lower(u, title)) == TitleKey(u, title)
  {
    StripLower(u, title);
    LowerIdempotent(u, Strip(title));
  }

  /** The key is empty exactly when the title is blank. */
  lemma TitleKeyEmptyIffBlank(u: Unicode, title: string)
    ensures TitleKey(u, title) == [] <==> AllSpace(title)
  {
    StripEmptyIffBlank(title);
  }

  // ---------------------------------------------------------------------
  // Sanitising

  /** `sanitize_string` distributes over concatenation: it filters, keeping order. */
  lemma {:induction false} SanitizeAppend(u: Unicode, a: string, b: string)
    ensures Sanitize(u, a + b) == Sanitize(u, a) + Sanitize(u, b)
  {
    if a != [] {
      assert (a + b)[0] == a[0];
      assert (a + b)[1..] == a[1..] + b;
      SanitizeAppend(u, a[1..], b);
    } else {
      assert a + b == b;
    }
  }

  /** A string that is already printable is returned unchanged. */
  lemma {:induction false} SanitizeKeepsPrintable(u: Unicode, s: string)
    requires forall i :: 0 <= i < |s| ==> u.isPrintable(s[i])
    ensures Sanitize(u, s) == s
  {
    if s != [] {
      SanitizeKeepsPrintable(u, s[1..]);
    }
  }

  /** Sanitising twice is sanitising once. */
  lemma SanitizeIdempotent(u: Unicode, s: string)
    ensures Sanitize(u, Sanitize(u, s)) == Sanitize(u, s)
  {
    SanitizeKeepsPrintable(u, Sanitize(u, s));
  }

  /** Each printable character occurs as often as in the input; no other character occurs. */
  lemma {:induction false} SanitizeCounts(u: Unicode, s: string, c: char)
    ensures multiset(Sanitize(u, s))[c] == if u.isPrintable(c) then multiset(s)[c] else 0
  {
    if s != [] {
      SanitizeCounts(u, s[1..], c);
      assert s == [s[0]] + s[1..];
      assert multiset(s) == multiset([s[0]]) + multiset(s[1..]);
    }
  }

  // ---------------------------------------------------------------------
  // Joining

  lemma {:induction false} JoinLength(sep: string, parts: seq<string>)
    ensures |Join(sep, parts)| == Sum(parts) + (if parts == [] then 0 else (|parts| - 1) * |sep|)
  {
    if |parts| > 1 {
      JoinLength(sep, parts[1..]);
    }
  }

  function Sum(parts: seq<string>): nat
  {
    if parts == [] then 0 else |parts[0]| + Sum(parts[1..])
  }
}
