/** String handling behind the "Image URLs (comma separated)" form field:
    the JavaScript chain `raw.split(',').map(url => url.trim()).filter(url => url)`
    written out as Split, Trim and DropEmpty, with the properties that make the
    stored url list well formed. */
module Text {

  /** The characters trimmed from both ends of a url: ASCII space, tab, line
      feed, vertical tab, form feed and carriage return. */
  predicate IsWhitespace(c: char) {
    c == ' ' || c == '\t' || c == '\n' || c == '\U{000B}' || c == '\U{000C}' || c == '\r'
  }

  predicate AllWhitespace(s: string) {
    forall k | 0 <= k < |s| :: IsWhitespace(s[k])
  }

  /** Neither end of `s` is whitespace. */
  predicate IsTrimmed(s: string) {
    s == [] || (!IsWhitespace(s[0]) && !IsWhitespace(s[|s| - 1]))
  }

  /** Length of the longest all-whitespace prefix. */
  function LeadingWhitespace(s: string): (n: nat)
    ensures n <= |s|
    ensures AllWhitespace(s[..n])
    ensures n < |s| ==> !IsWhitespace(s[n])
  {
    if |s| == 0 || !IsWhitespace(s[0]) then 0
    else
      var m := LeadingWhitespace(s[1..]);
      assert s[..m + 1] == [s[0]] + s[1..][..m];
      1 + m
  }

  /** Length of the longest all-whitespace suffix. */
  function TrailingWhitespace(s: string): (n: nat)
    ensures n <= |s|
    ensures AllWhitespace(s[|s| - n..])
    ensures n < |s| ==> !IsWhitespace(s[|s| - n - 1])
  {
    if |s| == 0 || !IsWhitespace(s[|s| - 1]) then 0
    else
      var init := s[..|s| - 1];
      var m := TrailingWhitespace(init);
      assert s[|s| - (m + 1)..] == init[|init| - m..] + [s[|s| - 1]];
      1 + m
  }

  /** `String.prototype.trim` restricted to IsWhitespace: the result is a
      trimmed slice of `s`, empty exactly when `s` is all whitespace. */
  function Trim(s: string): (r: string)
    ensures IsTrimmed(r)
    ensures |r| <= |s|
    ensures forall c :: c in r ==> c in s
    ensures r == [] <==> AllWhitespace(s)
  {
    var t := s[LeadingWhitespace(s)..];
    var r := t[..|t| - TrailingWhitespace(t)];
    assert r != [] ==> r[0] == s[LeadingWhitespace(s)];
    assert AllWhitespace(s) ==> LeadingWhitespace(s) == |s|;
    r
  }

  /** The leading whitespace of `a + m` is exactly `a` when `m` starts with a
      non-whitespace character. */
  lemma LeadingOfPadded(a: string, m: string)
    requires AllWhitespace(a)
    requires m != [] && !IsWhitespace(m[0])
    ensures LeadingWhitespace(a + m) == |a|
  {
    var s := a + m;
    assert s[|a|] == m[0];
    assert forall k | 0 <= k < |a| :: s[k] == a[k];
  }

  /** The trailing whitespace of `m + b` is exactly `b` when `m` ends with a
      non-whitespace character. */
  lemma TrailingOfPadded(m: string, b: string)
    requires AllWhitespace(b)
    requires m != [] && !IsWhitespace(m[|m| - 1])
    ensures TrailingWhitespace(m + b) == |b|
  {
    var s := m + b;
    assert s[|s| - |b| - 1] == m[|m| - 1];
    assert forall k | |m| <= k < |s| :: s[k] == b[k - |m|];
  }

  /** Trim removes exactly the whitespace padding around a trimmed core, and
      nothing else: this pins Trim down completely. */
  lemma {:induction false} TrimOfPadded(a: string, m: string, b: string)
    requires AllWhitespace(a) && AllWhitespace(b) && IsTrimmed(m)
    ensures Trim(a + m + b) == m
  {
    var s := a + m + b;
    if m == [] {
      assert s == a + b;
      assert AllWhitespace(s) by {
        forall k | 0 <= k < |s| ensures IsWhitespace(s[k]) {
          if k < |a| { assert s[k] == a[k]; } else { assert s[k] == b[k - |a|]; }
        }
      }
    } else {
      assert s == a + (m + b);
      LeadingOfPadded(a, m + b);
      var t := s[|a|..];
      assert t == m + b;
      TrailingOfPadded(m, b);
      assert t[..|t| - |b|] == m;
    }
  }

  /** Trimming twice is trimming once. */
  lemma TrimIdempotent(s: string)
    ensures Trim(Trim(s)) == Trim(s)
  {
    var r := Trim(s);
    assert [] + r + [] == r;
    TrimOfPadded([], r, []);
  }

  /** `s.split(',')`: the pieces between commas, in order; there is always at
      least one piece, and an input without commas is a single piece. */
  function Split(s: string): (r: seq<string>)
    ensures |r| >= 1
  {
    if |s| == 0 then [""]
    else
      var rest := Split(s[1..]);
      if s[0] == ',' then [""] + rest
      else [[s[0]] + rest[0]] + rest[1..]
  }

  /** No piece of a split contains a comma. */
  lemma {:induction false} SplitCommaFree(s: string)
    ensures forall k | 0 <= k < |Split(s)| :: ',' !in Split(s)[k]
  {
    if |s| > 0 {
      SplitCommaFree(s[1..]);
    }
  }

  /** An input without commas is a single piece. */
  lemma {:induction false} SplitNoComma(s: string)
    requires ',' !in s
    ensures Split(s) == [s]
  {
    if |s| > 0 {
      assert ',' !in s[1..];
      SplitNoComma(s[1..]);
      assert s == [s[0]] + s[1..];
    }
  }

  /** A leading comma closes an empty first piece. */
  lemma SplitComma(t: string)
    ensures Split([','] + t) == [""] + Split(t)
  {
    assert ([','] + t)[1..] == t;
  }

  /** A leading non-comma character joins the first piece. */
  lemma SplitCons(c: char, t: string)
    requires c != ','
    ensures Split([c] + t) == [[c] + Split(t)[0]] + Split(t)[1..]
  {
    assert ([c] + t)[1..] == t;
  }

  /** Extending the first piece commutes with appending more pieces. */
  lemma ExtendFirstAppend(c: char, ra: seq<string>, rb: seq<string>)
    requires |ra| >= 1
    ensures [[c] + (ra + rb)[0]] + (ra + rb)[1..] == ([[c] + ra[0]] + ra[1..]) + rb
  {
    assert (ra + rb)[1..] == ra[1..] + rb;
  }

  /** `pieces.join(',')`, the inverse of Split. */
  function Join(pieces: seq<string>): (s: string)
  {
    if |pieces| == 0 then ""
    else if |pieces| == 1 then pieces[0]
    else pieces[0] + "," + Join(pieces[1..])
  }

  /** Joining the pieces of a split gives back the input. */
  lemma {:induction false} JoinSplit(s: string)
    ensures Join(Split(s)) == s
  {
    if |s| > 0 {
      var rest := Split(s[1..]);
      JoinSplit(s[1..]);
      if s[0] == ',' {
        assert Split(s) == [""] + rest;
        assert Join(Split(s)) == "" + "," + Join(rest);
      } else {
        var r := [[s[0]] + rest[0]] + rest[1..];
        if |rest| == 1 {
          assert Join(r) == [s[0]] + rest[0];
        } else {
          assert rest == [rest[0]] + rest[1..];
          assert Join(rest) == rest[0] + "," + Join(rest[1..]);
          assert Join(r) == [s[0]] + rest[0] + "," + Join(rest[1..]);
        }
        assert s == [s[0]] + s[1..];
      }
    }
  }

  /** Split distributes over a comma: the pieces of `a + "," + b` are the
      pieces of `a` followed by the pieces of `b`. */
  lemma {:induction false} SplitAtComma(a: string, b: string)
    ensures Split(a + "," + b) == Split(a) + Split(b)
  {
    if |a| == 0 {
      assert a + "," + b == [','] + b;
      SplitComma(b);
    } else {
      var t := a[1..] + "," + b;
      assert a + "," + b == [a[0]] + t;
      assert a == [a[0]] + a[1..];
      SplitAtComma(a[1..], b);
      if a[0] == ',' {
        SplitComma(t);
        SplitComma(a[1..]);
      } else {
        SplitCons(a[0], t);
        SplitCons(a[0], a[1..]);
        ExtendFirstAppend(a[0], Split(a[1..]), Split(b));
      }
    }
  }

  /** Splitting comma-free pieces joined with commas gives the pieces back. */
  lemma {:induction false} SplitJoin(pieces: seq<string>)
    requires |pieces| >= 1
    requires forall k | 0 <= k < |pieces| :: ',' !in pieces[k]
    ensures Split(Join(pieces)) == pieces
  {
    SplitNoComma(pieces[0]);
    if |pieces| > 1 {
      SplitJoin(pieces[1..]);
      SplitAtComma(pieces[0], Join(pieces[1..]));
      assert pieces == [pieces[0]] + pieces[1..];
    }
  }

  /** `.map(url => url.trim())`. */
  function TrimEach(pieces: seq<string>): (r: seq<string>)
    ensures |r| == |pieces|
    ensures forall k | 0 <= k < |r| :: r[k] == Trim(pieces[k])
  {
    seq(|pieces|, k requires 0 <= k < |pieces| => Trim(pieces[k]))
  }

  lemma TrimEachAppend(xs: seq<string>, ys: seq<string>)
    ensures TrimEach(xs + ys) == TrimEach(xs) + TrimEach(ys)
  {
    var l, r := TrimEach(xs + ys), TrimEach(xs) + TrimEach(ys);
    assert |l| == |r|;
    forall k | 0 <= k < |l| ensures l[k] == r[k] {
      if k < |xs| { assert (xs + ys)[k] == xs[k]; } else { assert (xs + ys)[k] == ys[k - |xs|]; }
    }
  }

  /** `.filter(url => url)`: the empty string is the only falsy string. */
  function DropEmpty(xs: seq<string>): (r: seq<string>)
    ensures |r| <= |xs|
    ensures forall k | 0 <= k < |r| :: r[k] != ""
    ensures forall k | 0 <= k < |r| :: r[k] in xs
    ensures forall k | 0 <= k < |xs| && xs[k] != "" :: xs[k] in r
  {
    if |xs| == 0 then []
    else (if xs[0] == "" then [] else [xs[0]]) + DropEmpty(xs[1..])
  }

  /** Filtering commutes with concatenation, so it keeps relative order. */
  lemma {:induction false} DropEmptyAppend(xs: seq<string>, ys: seq<string>)
    ensures DropEmpty(xs + ys) == DropEmpty(xs) + DropEmpty(ys)
  {
    if |xs| > 0 {
      assert (xs + ys)[1..] == xs[1..] + ys;
      DropEmptyAppend(xs[1..], ys);
    } else {
      assert xs + ys == ys;
    }
  }

  /** Well-formed stored url lists: every entry is non-empty, comma-free and
      trimmed. */
  predicate WellFormedUrls(urls: seq<string>) {
    forall k | 0 <= k < |urls| :: urls[k] != "" && ',' !in urls[k] && IsTrimmed(urls[k])
  }

  /** The normalisation applied to the raw image-url field of both forms. */
  function NormalizeImageUrls(raw: string): (urls: seq<string>)
    ensures WellFormedUrls(urls)
    ensures |urls| <= |Split(raw)|
  {
    var pieces := Split(raw);
    SplitCommaFree(raw);
    var trimmed := TrimEach(pieces);
    var urls := DropEmpty(trimmed);
    assert forall k | 0 <= k < |urls| :: urls[k] in trimmed;
    urls
  }

  /** A comma-free field yields its trimmed text, or nothing when blank. */
  lemma NormalizeSingle(s: string)
    requires ',' !in s
    ensures NormalizeImageUrls(s) == if AllWhitespace(s) then [] else [Trim(s)]
  {
    var t := Trim(s);
    var trimmed := TrimEach(Split(s));
    assert trimmed == [t] by {
      SplitNoComma(s);
      assert |trimmed| == 1 && trimmed[0] == t;
    }
    assert DropEmpty([t]) == (if t == "" then [] else [t]) + DropEmpty([t][1..]);
    assert [t][1..] == [];
  }

  /** Normalisation distributes over a comma: entries keep the order of the
      pieces they came from. Together with NormalizeSingle this determines the
      result for every input. */
  lemma NormalizeAtComma(a: string, b: string)
    ensures NormalizeImageUrls(a + "," + b) == NormalizeImageUrls(a) + NormalizeImageUrls(b)
  {
    SplitAtComma(a, b);
    TrimEachAppend(Split(a), Split(b));
    DropEmptyAppend(TrimEach(Split(a)), TrimEach(Split(b)));
  }

  /** A comma-free field holding one url with whitespace around it stores
      just that url. */
  lemma NormalizePadded(a: string, url: string, b: string)
    requires AllWhitespace(a) && AllWhitespace(b)
    requires url != [] && IsTrimmed(url)
    requires ',' !in a + url + b
    ensures NormalizeImageUrls(a + url + b) == [url]
  {
    TrimOfPadded(a, url, b);
    NormalizeSingle(a + url + b);
  }

  /** A blank piece before a comma contributes no url. */
  lemma NormalizeDropsBlank(blank: string, rest: string)
    requires AllWhitespace(blank) && ',' !in blank
    ensures NormalizeImageUrls(blank + "," + rest) == NormalizeImageUrls(rest)
  {
    NormalizeAtComma(blank, rest);
    NormalizeSingle(blank);
  }

  /** A url piece before a comma contributes exactly that url, first. */
  lemma NormalizeKeepsUrl(url: string, rest: string)
    requires url != [] && IsTrimmed(url) && ',' !in url
    ensures NormalizeImageUrls(url + "," + rest) == [url] + NormalizeImageUrls(rest)
  {
    NormalizeAtComma(url, rest);
    assert url == [] + url + [];
    NormalizePadded([], url, []);
  }

  /** The field "a.jpg, , b.jpg" stores the two urls and drops the blank one.
      The field arrives as a parameter equal to the literal: a literal
      argument makes the verifier unfold the recursive definitions eagerly,
      which is far more expensive than the step-by-step proof below. */
  lemma NormalizeExample(raw: string)
    requires raw == "a.jpg, , b.jpg"
    ensures NormalizeImageUrls(raw) == ["a.jpg", "b.jpg"]
  {
    var a, tail := "a.jpg", " , b.jpg";
    assert raw == a + "," + tail;
    assert a[0] == 'a' && a[4] == 'g';
    NormalizeKeepsUrl(a, tail);
    NormalizeExampleTail(tail);
  }

  /** The tail " , b.jpg" of the example stores just "b.jpg"; the literal is
      a parameter for the same reason. */
  lemma NormalizeExampleTail(tail: string)
    requires tail == " , b.jpg"
    ensures NormalizeImageUrls(tail) == ["b.jpg"]
  {
    var blank, b := " ", "b.jpg";
    assert tail == blank + "," + (" " + b + []);
    assert b[0] == 'b' && b[4] == 'g';
    NormalizePadded(" ", b, []);
    NormalizeDropsBlank(blank, " " + b + []);
  }
}
