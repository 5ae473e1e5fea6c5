/** The tolerant JSON reading of request bodies: when a body does not parse,
    the raw control characters it holds are deleted and it is parsed once
    more. Section 7 of RFC 8259 forbids U+0000 through U+001F unescaped inside
    strings; the scrub deletes those except TAB, LF and CR, and also DEL. */
module JsonScrub {
  import opened Common

  /** The characters the scrub deletes. */
  predicate Scrubbed(c: char)
  {
    || ('\0' <= c <= '\U{8}')
    || c == '\U{B}' || c == '\U{C}'
    || ('\U{E}' <= c <= '\U{1F}')
    || c == '\U{7F}'
  }

  /** The control characters of section 7 of RFC 8259. */
  predicate RfcControl(c: char) { c <= '\U{1F}' }

  /** The scrubbed set is the RFC 8259 control range minus the three
      whitespace controls, plus DEL. */
  lemma ScrubbedSet(c: char)
    ensures Scrubbed(c) <==> (RfcControl(c) && c != '\t' && c != '\n' && c != '\r') || c == '\U{7F}'
  {
  }

  /** Deletes every scrubbed character and keeps the rest in order. */
  function Scrub(s: string): (r: string)
    ensures |r| <= |s|
    ensures forall i :: 0 <= i < |r| ==> !Scrubbed(r[i])
    ensures forall i :: 0 <= i < |r| ==> r[i] in s
  {
    if |s| == 0 then ""
    else
      var rest := Scrub(s[1..]);
      var r := (if Scrubbed(s[0]) then "" else [s[0]]) + rest;
      assert forall i :: 0 <= i < |rest| ==> rest[i] in s[1..];
      r
  }

  /** The scrub works character by character: scrubbing a concatenation is
      concatenating the scrubbed parts, so the order of what is kept is the
      order of the input. */
  lemma {:induction false} ScrubAppend(a: string, b: string)
    ensures Scrub(a + b) == Scrub(a) + Scrub(b)
    decreases |a|
  {
    if |a| == 0 {
      assert a + b == b;
    } else {
      assert (a + b)[1..] == a[1..] + b;
      ScrubAppend(a[1..], b);
    }
  }

  /** A text without scrubbed characters is its own scrub, and only such a
      text is. */
  lemma {:induction false} ScrubFixedPoint(s: string)
    ensures Scrub(s) == s <==> forall i :: 0 <= i < |s| ==> !Scrubbed(s[i])
    decreases |s|
  {
    if |s| > 0 {
      ScrubFixedPoint(s[1..]);
      if Scrubbed(s[0]) {
        assert |Scrub(s)| < |s|;
      } else {
        assert Scrub(s) == [s[0]] + Scrub(s[1..]);
        if Scrub(s) == s {
          assert Scrub(s[1..]) == s[1..];
        }
        assert (forall i :: 0 <= i < |s| ==> !Scrubbed(s[i]))
          <==> (forall i :: 0 <= i < |s[1..]| ==> !Scrubbed(s[1..][i]));
      }
    }
  }

  /** Scrubbing twice deletes nothing more. */
  lemma ScrubIdempotent(s: string)
    ensures Scrub(Scrub(s)) == Scrub(s)
  {
    ScrubFixedPoint(Scrub(s));
  }

  /** Every kept character survives as often as it occurs; every scrubbed
      one is gone. */
  lemma {:induction false} ScrubCounts(s: string)
    ensures forall c :: !Scrubbed(c) ==> multiset(Scrub(s))[c] == multiset(s)[c]
    ensures forall c :: Scrubbed(c) ==> multiset(Scrub(s))[c] == 0
    decreases |s|
  {
    if |s| > 0 {
      ScrubCounts(s[1..]);
      assert s == [s[0]] + s[1..];
      assert multiset(s) == multiset([s[0]]) + multiset(s[1..]);
      var head := if Scrubbed(s[0]) then "" else [s[0]];
      assert multiset(Scrub(s)) == multiset(head) + multiset(Scrub(s[1..]));
    }
  }

  /** `safe_json_parse`: the body is parsed as it came; only when that fails
      is it scrubbed and parsed again, and that second result stands.
      `parse` is the JSON decoder; `None` is its decode error. */
  function SafeJsonParse<T>(parse: string -> Option<T>, body: string): (r: Option<T>)
    ensures parse(body).Some? ==> r == parse(body)
    ensures parse(body).None? ==> r == parse(Scrub(body))
  {
    match parse(body)
    case Some(v) => Some(v)
    case None => parse(Scrub(body))
  }

  /** On a body without scrubbed characters the retry cannot change the
      outcome: the tolerant parse is the plain parse. */
  lemma CleanBodyParsesPlainly<T>(parse: string -> Option<T>, body: string)
    requires forall i :: 0 <= i < |body| ==> !Scrubbed(body[i])
    ensures SafeJsonParse(parse, body) == parse(body)
  {
    ScrubFixedPoint(body);
  }
}
