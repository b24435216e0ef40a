/**
 * Reading a shared deep link: the page's URL is searched for "/share/"; what
 * follows is split on "/" into a timezone and a date-time segment, and the
 * segment has every "+" turned into "%20" before it is URI-decoded.
 * `decodeURIComponent` is a parameter: it either yields the decoded text or
 * fails (a `URIError` in JavaScript).
 */
module ShareLink {
  import opened Wrappers

  const Marker := "/share/"

  /** `pat` occurs in `s` starting at index `j`. */
  predicate IsAt(s: string, pat: string, j: int) {
    0 <= j && j + |pat| <= |s| && s[j..j + |pat|] == pat
  }

  /** `s.indexOf(pat, from)`: the first index from `from` on where `pat` occurs, or -1. */
  function IndexFrom(s: string, pat: string, from: nat): (r: int)
    requires from <= |s|
    ensures r == -1 || (from <= r && IsAt(s, pat, r))
    ensures forall j :: from <= j && (r == -1 || j < r) ==> !IsAt(s, pat, j)
    decreases |s| - from
  {
    if IsAt(s, pat, from) then from
    else if from == |s| then -1
    else IndexFrom(s, pat, from + 1)
  }

  /** `s.indexOf(pat)`: the first occurrence of `pat` in `s`, or -1 when there is none. */
  function IndexOf(s: string, pat: string): (r: int)
    ensures r == -1 <==> forall j :: !IsAt(s, pat, j)
    ensures r != -1 ==> IsAt(s, pat, r) && forall j :: 0 <= j < r ==> !IsAt(s, pat, j)
  {
    IndexFrom(s, pat, 0)
  }

  /** The parts of `s.split(sep)` glued back together with `sep` in between. */
  function Join(parts: seq<string>, sep: char): string
    requires |parts| >= 1
  {
    if |parts| == 1 then parts[0] else parts[0] + [sep] + Join(parts[1..], sep)
  }

  /**
   * `s.split(sep)` for a one-character separator: the maximal pieces between
   * separators, at least one (the empty string splits into one empty piece).
   */
  function Split(s: string, sep: char): (parts: seq<string>)
    ensures |parts| >= 1
    decreases |s|
  {
    if s == [] then [[]]
    else
      var rest := Split(s[1..], sep);
      if s[0] == sep then [[]] + rest
      else [[s[0]] + rest[0]] + rest[1..]
  }

  /** The parts hold no separator, and joining them with it gives the string back. */
  lemma {:induction false} SplitJoin(s: string, sep: char)
    ensures var parts := Split(s, sep);
            (forall i :: 0 <= i < |parts| ==> sep !in parts[i]) && Join(parts, sep) == s
    decreases |s|
  {
    if s != [] {
      SplitJoin(s[1..], sep);
      assert s == [s[0]] + s[1..];
    }
  }

  /** A piece without the separator, then the separator: the piece is the first part and the rest is split on. */
  lemma {:induction false} SplitCons(p: string, sep: char, t: string)
    requires sep !in p
    ensures Split(p + [sep] + t, sep) == [p] + Split(t, sep)
    decreases |p|
  {
    var s := p + [sep] + t;
    if p == [] {
      assert s == [sep] + t && s[1..] == t;
    } else {
      assert s[0] == p[0] && s[1..] == p[1..] + [sep] + t;
      SplitCons(p[1..], sep, t);
      assert p == [p[0]] + p[1..];
    }
  }

  /** A string without the separator splits into itself alone. */
  lemma {:induction false} SplitNone(s: string, sep: char)
    requires sep !in s
    ensures Split(s, sep) == [s]
    decreases |s|
  {
    if s != [] {
      SplitNone(s[1..], sep);
      assert s == [s[0]] + s[1..];
    }
  }

  /** There is a second part exactly when the separator occurs. */
  lemma SplitCount(s: string, sep: char)
    ensures |Split(s, sep)| >= 2 <==> sep in s
  {
    var parts := Split(s, sep);
    SplitJoin(s, sep);
    if |parts| >= 2 {
      assert s == parts[0] + [sep] + Join(parts[1..], sep);
      assert s[|parts[0]|] == sep;
    }
  }

  /** `s.replace(/c/g, rep)`: every `c` in `s` is replaced by `rep`. */
  function ReplaceAll(s: string, c: char, rep: string): string
    decreases |s|
  {
    if s == [] then []
    else (if s[0] == c then rep else [s[0]]) + ReplaceAll(s[1..], c, rep)
  }

  /** Replacing works piece by piece: the text between the replaced characters is kept in place. */
  lemma {:induction false} ReplaceAllAppend(a: string, b: string, c: char, rep: string)
    ensures ReplaceAll(a + b, c, rep) == ReplaceAll(a, c, rep) + ReplaceAll(b, c, rep)
    decreases |a|
  {
    if a == [] {
      assert a + b == b;
    } else {
      var head := if a[0] == c then rep else [a[0]];
      assert (a + b)[0] == a[0] && (a + b)[1..] == a[1..] + b;
      assert ReplaceAll(a + b, c, rep) == head + ReplaceAll(a[1..] + b, c, rep);
      ReplaceAllAppend(a[1..], b, c, rep);
      assert ReplaceAll(a, c, rep) == head + ReplaceAll(a[1..], c, rep);
    }
  }

  /** What the share link carries once read. */
  datatype ShareInfo = ShareInfo(timezone: string, dateTime: string)

  /**
   * The outcome of reading the page's URL: no "/share/" in it, a shared
   * timezone and date-time, or an exception the effect does not catch (the
   * text after "/share/" has no second segment, so `formattedDateTime` is
   * `undefined`; or the segment is not valid URI-encoded text).
   */
  datatype DeepLink = NotShared | Shared(info: ShareInfo) | Throws

  /**
   * What the effect does with the text after "/share/": the first two
   * "/"-separated segments are the timezone and the encoded date-time.
   */
  function ReadShared(shareInfo: string, decode: string -> Option<string>): (r: DeepLink)
    ensures !r.NotShared?
    ensures r.Shared? ==> '/' !in r.info.timezone
    ensures '/' !in shareInfo ==> r.Throws?
  {
    var parts := Split(shareInfo, '/');
    SplitJoin(shareInfo, '/');
    SplitCount(shareInfo, '/');
    if |parts| < 2 then Throws
    else
      match decode(ReplaceAll(parts[1], '+', "%20"))
      case None => Throws
      case Some(dateTime) => Shared(ShareInfo(parts[0], dateTime))
  }

  /** The share-link effect on the page's URL. */
  function ParseShareUrl(url: string, decode: string -> Option<string>): (r: DeepLink)
    ensures r.NotShared? <==> forall j :: !IsAt(url, Marker, j)
  {
    var shareIndex := IndexOf(url, Marker);
    if shareIndex == -1 then NotShared
    else ReadShared(url[shareIndex + |Marker|..], decode)
  }

  /** The text after "/share/" splits into the timezone, then the date-time segment. */
  lemma SplitTwoSegments(timezone: string, segment: string, tail: string)
    requires '/' !in timezone && '/' !in segment
    requires tail == [] || tail[0] == '/'
    ensures var parts := Split(timezone + ['/'] + (segment + tail), '/');
            |parts| >= 2 && parts[0] == timezone && parts[1] == segment
  {
    SplitCons(timezone, '/', segment + tail);
    if tail == [] {
      assert segment + tail == segment;
      SplitNone(segment, '/');
    } else {
      assert segment + tail == segment + ['/'] + tail[1..];
      SplitCons(segment, '/', tail[1..]);
    }
  }

  /**
   * A link built as `<prefix>/share/<timezone>/<segment>[/...]`, with the
   * first "/share/" right after the prefix, is read as that timezone and the
   * decoded segment (with "+" read as an encoded space); the link is
   * rejected exactly when the segment does not decode.
   */
  lemma ParseShareUrlBuilt(prefix: string, timezone: string, segment: string, tail: string,
                           decode: string -> Option<string>)
    requires forall j :: 0 <= j < |prefix| ==> !IsAt(prefix + Marker, Marker, j)
    requires '/' !in timezone && '/' !in segment
    requires tail == [] || tail[0] == '/'
    ensures ParseShareUrl(prefix + Marker + (timezone + ['/'] + (segment + tail)), decode)
            == match decode(ReplaceAll(segment, '+', "%20"))
               case None => Throws
               case Some(dateTime) => Shared(ShareInfo(timezone, dateTime))
  {
    MarkerAfter(prefix, timezone + ['/'] + (segment + tail));
    SplitTwoSegments(timezone, segment, tail);
  }

  /** Text after "/share/" with no second "/"-separated segment makes the effect throw. */
  lemma ParseShareUrlMissingSegment(prefix: string, timezone: string, decode: string -> Option<string>)
    requires forall j :: 0 <= j < |prefix| ==> !IsAt(prefix + Marker, Marker, j)
    requires '/' !in timezone
    ensures ParseShareUrl(prefix + Marker + timezone, decode) == Throws
  {
    MarkerAfter(prefix, timezone);
    SplitCount(timezone, '/');
  }

  /** Text without `c` is left as it is. */
  lemma {:induction false} ReplaceAllAbsent(s: string, c: char, rep: string)
    requires c !in s
    ensures ReplaceAll(s, c, rep) == s
    decreases |s|
  {
    if s != [] {
      ReplaceAllAbsent(s[1..], c, rep);
      assert s == [s[0]] + s[1..];
    }
  }

  /** After the replacement no `c` is left, provided the replacement has none. */
  lemma {:induction false} ReplaceAllRemoves(s: string, c: char, rep: string)
    requires c !in rep
    ensures c !in ReplaceAll(s, c, rep)
    decreases |s|
  {
    if s != [] {
      ReplaceAllRemoves(s[1..], c, rep);
    }
  }

  /** A single `c` between two pieces without one is replaced, and the pieces are kept. */
  lemma ReplaceAllBetween(a: string, b: string, c: char, rep: string)
    requires c !in a && c !in b
    ensures ReplaceAll(a + [c] + b, c, rep) == a + rep + b
  {
    ReplaceAllAppend(a, [c] + b, c, rep);
    ReplaceAllAppend([c], b, c, rep);
    assert ReplaceAll([c], c, rep) == rep by {
      assert [c][1..] == [];
    }
    ReplaceAllAbsent(a, c, rep);
    ReplaceAllAbsent(b, c, rep);
    assert a + [c] + b == a + ([c] + b);
  }

  /** When the first "/share/" of a URL ends its prefix, the shared text is everything after it. */
  lemma MarkerAfter(prefix: string, rest: string)
    requires forall j :: 0 <= j < |prefix| ==> !IsAt(prefix + Marker, Marker, j)
    ensures var url := prefix + Marker + rest;
            IndexOf(url, Marker) == |prefix| && url[|prefix| + |Marker|..] == rest
  {
    var head := prefix + Marker;
    var url := head + rest;
    assert |Marker| == 7;
    assert url[|prefix|..|prefix| + |Marker|] == Marker;
    assert IsAt(url, Marker, |prefix|);
    assert url[|prefix| + |Marker|..] == rest;
    forall j | 0 <= j < |prefix|
      ensures !IsAt(url, Marker, j)
    {
      assert !IsAt(head, Marker, j);
      assert j + |Marker| <= |head|;
      assert url[j..j + |Marker|] == head[j..j + |Marker|];
    }
  }
}
