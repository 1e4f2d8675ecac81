/** Model of generate_sample_from_csv in the Omega file indexer
    (xapian-applications/omega/index_file.cc): the text sample of a CSV
    file.  The input is the sequence of code points the UTF-8 iterator
    yields; the sample is a sequence of bytes.

    The specification is given in three stages that the single loop of the
    indexer interleaves: the quoting rules (Unquote), the whitespace
    squeezing and UTF-8 encoding (Bytes), and the truncation at the first
    point the sample reaches the size limit (FromText). */
module OmegaCsv {

  import opened Common

  type CodePoint = x: nat | x < 0x11_0000
  type Byte = x: nat | x < 0x100

  const QUOTE: CodePoint := 0x22
  const COMMA: CodePoint := 0x2C
  const SPACE: CodePoint := 0x20
  const NBSP: CodePoint := 0xA0

  /** "..." and " ..." as bytes. */
  const DOTS: seq<Byte> := [0x2E, 0x2E, 0x2E]
  const SPACE_DOTS: seq<Byte> := [0x20, 0x2E, 0x2E, 0x2E]

  /** A sample, or the std::out_of_range that string::replace throws when
      the size limit is below 3 and the sample has to be cut mid-word. */
  datatype CsvResult = Sample(bytes: seq<Byte>) | OutOfRange

  /** Whitespace for the sampler: every control character, the space and
      the no-break space. */
  predicate IsWs(c: CodePoint)
  {
    c <= SPACE || c == NBSP
  }

  /** The UTF-8 encoding of a code point, as append_utf8 writes it. */
  function Utf8(c: CodePoint): (r: seq<Byte>)
    ensures 1 <= |r| <= 4
    ensures c < 0x80 <==> |r| == 1
    ensures |r| == 1 ==> r[0] == c
    ensures |r| > 1 ==> forall i :: 0 <= i < |r| ==> r[i] >= 0x80
  {
    if c < 0x80 then [c]
    else if c < 0x800 then [0xC0 + c / 0x40, 0x80 + c % 0x40]
    else if c < 0x1_0000 then [0xE0 + c / 0x1000, 0x80 + (c / 0x40) % 0x40, 0x80 + c % 0x40]
    else [0xF0 + c / 0x4_0000, 0x80 + (c / 0x1000) % 0x40, 0x80 + (c / 0x40) % 0x40, 0x80 + c % 0x40]
  }

  /** The encoding of a character that is not whitespace has no space byte. */
  lemma Utf8HasNoSpace(c: CodePoint)
    requires !IsWs(c)
    ensures forall i :: 0 <= i < |Utf8(c)| ==> Utf8(c)[i] != 0x20
  {
  }

  // ---------------------------------------------------------------------
  // Stage 1: quoting

  /** A comma outside quotes separates fields and reads as a space. */
  function FieldSep(c: CodePoint): CodePoint
  {
    if c == COMMA then SPACE else c
  }

  /** The characters the sampler goes on to use, from input s read with
      the given quoting state. */
  function Unquote(s: seq<CodePoint>, inQuotes: bool): seq<CodePoint>
    decreases |s|
  {
    if s == [] then []
    else if !inQuotes then
      if s[0] == QUOTE then Unquote(s[1..], true)
      else [FieldSep(s[0])] + Unquote(s[1..], false)
    else if s[0] != QUOTE then [s[0]] + Unquote(s[1..], true)
    else if |s| == 1 then []
    else if s[1] == QUOTE then [QUOTE] + Unquote(s[2..], true)
    else [FieldSep(s[1])] + Unquote(s[2..], false)
  }

  /** A field written the CSV way: quotes doubled, the whole quoted. */
  function Escape(f: seq<CodePoint>): seq<CodePoint>
    decreases |f|
  {
    if f == [] then []
    else (if f[0] == QUOTE then [QUOTE, QUOTE] else [f[0]]) + Escape(f[1..])
  }

  function Quote(f: seq<CodePoint>): seq<CodePoint>
  {
    [QUOTE] + Escape(f) + [QUOTE]
  }

  /** Inside quotes, doubled quotes read back as single ones. */
  lemma {:induction false} UnquoteEscaped(f: seq<CodePoint>, tail: seq<CodePoint>)
    ensures Unquote(Escape(f) + tail, true) == f + Unquote(tail, true)
    decreases |f|
  {
    if f != [] {
      var x := Escape(f[1..]) + tail;
      UnquoteEscaped(f[1..], tail);
      if f[0] == QUOTE {
        var s := [QUOTE, QUOTE] + x;
        assert Escape(f) + tail == s;
        assert s[2..] == x;
        assert Unquote(s, true) == [QUOTE] + Unquote(x, true);
      } else {
        var s := [f[0]] + x;
        assert Escape(f) + tail == s;
        assert s[1..] == x;
        assert Unquote(s, true) == [f[0]] + Unquote(x, true);
      }
      assert Unquote(Escape(f) + tail, true) == [f[0]] + Unquote(x, true);
      assert [f[0]] + Unquote(x, true) == [f[0]] + (f[1..] + Unquote(tail, true));
      assert f == [f[0]] + f[1..];
    } else {
      assert Escape(f) + tail == tail;
    }
  }

  /** A quoted field reads back as the field: followed by another character
      (a comma becoming a space) quoting ends there, and at the end of the
      input the closing quote ends the sample text. */
  lemma QuotedFieldRoundTrip(f: seq<CodePoint>, c: CodePoint, rest: seq<CodePoint>)
    requires c != QUOTE
    ensures Unquote(Quote(f) + [c] + rest, false) == f + [FieldSep(c)] + Unquote(rest, false)
    ensures Unquote(Quote(f), false) == f
  {
    var s := Quote(f) + [c] + rest;
    assert s[1..] == Escape(f) + ([QUOTE, c] + rest);
    UnquoteEscaped(f, [QUOTE, c] + rest);
    assert ([QUOTE, c] + rest)[2..] == rest;
    assert Quote(f)[1..] == Escape(f) + [QUOTE];
    UnquoteEscaped(f, [QUOTE]);
  }

  // ---------------------------------------------------------------------
  // Stage 2: squeezing whitespace and encoding

  /** Whether the sampler is "in space" after the characters t: at the
      start, and after any whitespace. */
  predicate InSpace(t: seq<CodePoint>)
  {
    t == [] || IsWs(t[|t| - 1])
  }

  /** What one character adds to the sample. */
  function Step(c: CodePoint, inSpace: bool): seq<Byte>
  {
    if IsWs(c) then (if inSpace then [] else [0x20]) else Utf8(c)
  }

  /** The sample bytes for the characters t, before any truncation. */
  function Bytes(t: seq<CodePoint>): seq<Byte>
    decreases |t|
  {
    if t == [] then []
    else Bytes(t[..|t| - 1]) + Step(t[|t| - 1], InSpace(t[..|t| - 1]))
  }

  /** Whether the last character of t added to the sample (and so was
      followed by the size test). */
  predicate Appends(t: seq<CodePoint>)
  {
    t != [] && (!IsWs(t[|t| - 1]) || !InSpace(t[..|t| - 1]))
  }

  /** Where the space written last begins, or 0. */
  function LastWordEnd(t: seq<CodePoint>): (r: nat)
    ensures r <= |Bytes(t)|
    ensures r > 0 ==> r < |Bytes(t)|
    decreases |t|
  {
    if t == [] then 0
    else if IsWs(t[|t| - 1]) && !InSpace(t[..|t| - 1]) then |Bytes(t[..|t| - 1])|
    else LastWordEnd(t[..|t| - 1])
  }

  /** The last word end, when there is one, is where a space was written. */
  lemma {:induction false} LastWordEndIsSpace(t: seq<CodePoint>)
    ensures LastWordEnd(t) > 0 ==> Bytes(t)[LastWordEnd(t)] == 0x20
    decreases |t|
  {
    if t != [] {
      var init := t[..|t| - 1];
      LastWordEndIsSpace(init);
      assert Bytes(t) == Bytes(init) + Step(t[|t| - 1], InSpace(init));
    }
  }

  /** The sample never starts with a space, never has two spaces in a row,
      and ends in a space exactly when the text so far ends in whitespace
      after something was written. */
  lemma {:induction false} BytesSpacing(t: seq<CodePoint>)
    ensures |Bytes(t)| > 0 ==> Bytes(t)[0] != 0x20
    ensures forall i :: 0 <= i < |Bytes(t)| - 1 ==> !(Bytes(t)[i] == 0x20 && Bytes(t)[i + 1] == 0x20)
    ensures |Bytes(t)| > 0 ==> (Bytes(t)[|Bytes(t)| - 1] == 0x20 <==> InSpace(t))
    decreases |t|
  {
    if t != [] {
      var init := t[..|t| - 1];
      var c := t[|t| - 1];
      BytesSpacing(init);
      var b := Bytes(init);
      var step := Step(c, InSpace(init));
      assert Bytes(t) == b + step;
      if !IsWs(c) {
        Utf8HasNoSpace(c);
      }
      forall i | 0 <= i < |Bytes(t)| - 1
        ensures !(Bytes(t)[i] == 0x20 && Bytes(t)[i + 1] == 0x20)
      {
        if i + 1 < |b| {
          assert Bytes(t)[i] == b[i] && Bytes(t)[i + 1] == b[i + 1];
        } else if i + 1 == |b| {
          assert Bytes(t)[i + 1] == step[0];
        } else {
          assert Bytes(t)[i + 1] == step[i + 1 - |b|];
        }
      }
      if |Bytes(t)| > 0 && b == [] {
        assert Bytes(t)[0] == step[0];
      }
    }
  }

  /** The bytes for a prefix of the text are a prefix of its bytes. */
  lemma {:induction false} BytesPrefix(t: seq<CodePoint>, k: nat)
    requires k <= |t|
    ensures |Bytes(t[..k])| <= |Bytes(t)|
    ensures Bytes(t)[..|Bytes(t[..k])|] == Bytes(t[..k])
    decreases |t| - k
  {
    if k < |t| {
      var init := t[..|t| - 1];
      assert init[..k] == t[..k];
      BytesPrefix(init, k);
      assert Bytes(t) == Bytes(init) + Step(t[|t| - 1], InSpace(init));
    } else {
      assert t[..k] == t;
    }
  }

  // ---------------------------------------------------------------------
  // Stage 3: truncation

  /** The length of the text at which the sample is first tested and found
      to have reached n bytes, if ever. */
  function FirstReach(t: seq<CodePoint>, n: nat): (r: Option<nat>)
    ensures r.Some? ==> 1 <= r.value <= |t|
    decreases |t|
  {
    if t == [] then None
    else if FirstReach(t[..|t| - 1], n).Some? then FirstReach(t[..|t| - 1], n)
    else if Appends(t) && |Bytes(t)| >= n then Some(|t|)
    else None
  }

  /** One more character: how each quantity the loop keeps moves on. */
  lemma Snoc(t: seq<CodePoint>, c: CodePoint)
    ensures Bytes(t + [c]) == Bytes(t) + Step(c, InSpace(t))
    ensures InSpace(t + [c]) == IsWs(c)
    ensures Appends(t + [c]) == (!IsWs(c) || !InSpace(t))
    ensures LastWordEnd(t + [c]) == if IsWs(c) && !InSpace(t) then |Bytes(t)| else LastWordEnd(t)
  {
    assert (t + [c])[..|t|] == t;
  }

  /** One more character before the limit was reached: the limit is
      reached now exactly when the character was written and the sample
      has n bytes. */
  lemma SnocReach(t: seq<CodePoint>, c: CodePoint, n: nat)
    requires FirstReach(t, n).None?
    ensures FirstReach(t + [c], n) ==
      if Appends(t + [c]) && |Bytes(t + [c])| >= n then Some(|t| + 1) else None
  {
    assert (t + [c])[..|t|] == t;
  }

  /** Where the limit is first reached, the last character added to the
      sample, the sample has at least n bytes, and it had not been reached
      one character earlier. */
  lemma {:induction false} FirstReachSome(t: seq<CodePoint>, n: nat)
    requires FirstReach(t, n).Some?
    ensures var k := FirstReach(t, n).value;
      && Appends(t[..k]) && |Bytes(t[..k])| >= n
      && FirstReach(t[..k - 1], n).None?
      && FirstReach(t[..k], n) == Some(k)
    decreases |t|
  {
    var init := t[..|t| - 1];
    var k := FirstReach(t, n).value;
    if FirstReach(init, n).Some? {
      assert FirstReach(init, n) == Some(k);
      FirstReachSome(init, n);
      InitPrefixes(t, k);
    } else {
      assert k == |t| && Appends(t) && |Bytes(t)| >= n;
      InitPrefixes(t, k);
    }
  }

  /** Prefixes of t of length at most k are prefixes of its initial part
      too, when k < |t|; the prefix of length |t| is t itself. */
  lemma InitPrefixes(t: seq<CodePoint>, k: nat)
    requires 1 <= k <= |t|
    ensures k < |t| ==> t[..|t| - 1][..k] == t[..k] && t[..|t| - 1][..k - 1] == t[..k - 1]
    ensures k == |t| ==> t[..k] == t && t[..k - 1] == t[..|t| - 1]
  {
  }

  /** Until the limit is reached the sample stays under it, or is empty
      (a limit of 0 is only reached once something is written). */
  lemma {:induction false} FirstReachNone(t: seq<CodePoint>, n: nat)
    requires FirstReach(t, n).None?
    ensures |Bytes(t)| < n || Bytes(t) == []
    decreases |t|
  {
    if t != [] {
      var init := t[..|t| - 1];
      FirstReachNone(init, n);
      assert Bytes(t) == Bytes(init) + Step(t[|t| - 1], InSpace(init));
    }
  }

  /** Once the limit is reached, one more character does not move it. */
  lemma SnocReached(t: seq<CodePoint>, c: CodePoint, n: nat)
    requires FirstReach(t, n).Some?
    ensures FirstReach(t + [c], n) == FirstReach(t, n)
  {
    assert (t + [c])[..|t|] == t;
  }

  /** Once the limit is reached the rest of the text does not matter. */
  lemma {:induction false} FirstReachExtends(t: seq<CodePoint>, u: seq<CodePoint>, n: nat)
    requires FirstReach(t, n).Some?
    ensures FirstReach(t + u, n) == FirstReach(t, n)
    decreases |u|
  {
    if u == [] {
      assert t + u == t;
    } else {
      var u' := u[..|u| - 1];
      FirstReachExtends(t, u', n);
      SnocReached(t + u', u[|u| - 1], n);
      assert t + u' + [u[|u| - 1]] == t + u;
    }
  }

  /** The cut made when the sample has reached n bytes: a word that fills
      more than half the sample is split and "..." put in its last three
      bytes; otherwise the sample ends at the last word end with " ...". */
  function Cut(s: seq<Byte>, lastWordEnd: nat, n: nat): CsvResult
    requires n <= |s| && lastWordEnd <= |s|
  {
    if lastWordEnd <= n / 2 then
      if n < 3 then OutOfRange else Sample(s[..n - 3] + DOTS)
    else Sample(s[..lastWordEnd] + SPACE_DOTS)
  }

  function FromText(t: seq<CodePoint>, n: nat): CsvResult
  {
    match FirstReach(t, n)
    case None => Sample(Bytes(t))
    case Some(k) =>
      FirstReachSome(t, n);
      Cut(Bytes(t[..k]), LastWordEnd(t[..k]), n)
  }

  /** The sample generate_sample_from_csv makes of csv with a size limit
      of n bytes. */
  function CsvSample(csv: seq<CodePoint>, n: nat): CsvResult
  {
    FromText(Unquote(csv, false), n)
  }

  /** Characters after the point where the limit was reached are never
      looked at. */
  lemma TruncationIgnoresRest(t: seq<CodePoint>, u: seq<CodePoint>, n: nat)
    requires FirstReach(t, n).Some?
    ensures FromText(t[..FirstReach(t, n).value] + u, n) == FromText(t, n)
  {
    var k := FirstReach(t, n).value;
    var p := t[..k];
    FirstReachSome(t, n);
    FirstReachExtends(p, u, n);
    assert (p + u)[..k] == p;
  }

  /** A text that never reaches the limit is its own sample. */
  lemma NotReached(t: seq<CodePoint>, n: nat)
    requires FirstReach(t, n).None?
    ensures FromText(t, n) == Sample(Bytes(t))
  {
  }

  /** When the limit is reached by the last character of t, the sample of
      t followed by anything is the cut of t's bytes. */
  lemma ReachedAtEnd(t: seq<CodePoint>, rest: seq<CodePoint>, n: nat)
    requires FirstReach(t, n) == Some(|t|)
    ensures n <= |Bytes(t)|
    ensures FromText(t + rest, n) == Cut(Bytes(t), LastWordEnd(t), n)
  {
    FirstReachSome(t, n);
    assert t[..|t|] == t;
    FirstReachExtends(t, rest, n);
    assert (t + rest)[..|t|] == t;
  }

  /** The shape of a cut of s, when s is the start of the bytes b. */
  lemma CutShape(s: seq<Byte>, w: nat, n: nat, b: seq<Byte>)
    requires |s| <= |b| && b[..|s|] == s
    requires n <= |s| && w <= |s|
    requires w > 0 ==> w < |s| && s[w] == 0x20
    requires w == 0 || w < n
    ensures match Cut(s, w, n)
      case OutOfRange => n < 3
      case Sample(r) =>
        && |r| <= n + 3
        && (|| (3 <= n <= |b| && |r| == n && r == b[..n - 3] + DOTS)
            || (exists w' :: n / 2 < w' < |b| && b[w'] == 0x20 && r == b[..w'] + SPACE_DOTS))
  {
    if w > n / 2 {
      assert b[w] == s[w];
      assert b[..w] == s[..w];
    } else if n >= 3 {
      assert b[..n - 3] == s[..n - 3];
    }
  }

  /** The bytes where the limit is first reached meet what CutShape needs:
      they start the whole text's bytes, and the last word end, if any, is
      a space before the limit. */
  lemma ReachedPrefix(t: seq<CodePoint>, n: nat)
    requires FirstReach(t, n).Some?
    ensures var k := FirstReach(t, n).value;
      var s := Bytes(t[..k]);
      var w := LastWordEnd(t[..k]);
      && |s| <= |Bytes(t)| && Bytes(t)[..|s|] == s
      && n <= |s| && w <= |s|
      && (w > 0 ==> w < |s| && s[w] == 0x20)
      && (w == 0 || w < n)
  {
    var k := FirstReach(t, n).value;
    FirstReachSome(t, n);
    var p := t[..k];
    var s := Bytes(p);
    var w := LastWordEnd(p);
    assert w == 0 || w < n by {
      assert p[..k - 1] == t[..k - 1];
      FirstReachNone(p[..k - 1], n);
      LastWordEndBefore(p);
    }
    assert w > 0 ==> s[w] == 0x20 by {
      LastWordEndIsSpace(p);
    }
    assert |s| <= |Bytes(t)| && Bytes(t)[..|s|] == s by {
      BytesPrefix(t, k);
    }
  }

  /** The last word end lies within the bytes written before the last
      character. */
  lemma LastWordEndBefore(t: seq<CodePoint>)
    requires t != []
    ensures LastWordEnd(t) <= |Bytes(t[..|t| - 1])|
  {
  }

  /** What a sample looks like: the squeezed text itself when it stays
      under the limit; otherwise the beginning of it cut mid-word to exactly
      n bytes ending in "...", or cut at a word end past the middle and
      followed by " ...".  Either way it is at most n + 3 bytes. */
  lemma SampleShape(csv: seq<CodePoint>, n: nat)
    ensures var b := Bytes(Unquote(csv, false));
      match CsvSample(csv, n)
      case OutOfRange => n < 3
      case Sample(r) =>
        && |r| <= n + 3
        && (|| (r == b && (|b| < n || b == []))
            || (3 <= n <= |b| && |r| == n && r == b[..n - 3] + DOTS)
            || (exists w :: n / 2 < w < |b| && b[w] == 0x20 && r == b[..w] + SPACE_DOTS))
  {
    var t := Unquote(csv, false);
    var b := Bytes(t);
    match FirstReach(t, n)
    case None =>
      FirstReachNone(t, n);
    case Some(k) =>
      ReachedPrefix(t, n);
      CutShape(Bytes(t[..k]), LastWordEnd(t[..k]), n, b);
  }

  /** Every sample starts with something other than a space and has no two
      spaces in a row. */
  lemma SampleSpacing(csv: seq<CodePoint>, n: nat)
    requires CsvSample(csv, n).Sample?
    ensures var r := CsvSample(csv, n).bytes;
      && (|r| > 0 ==> r[0] != 0x20)
      && forall i :: 0 <= i < |r| - 1 ==> !(r[i] == 0x20 && r[i + 1] == 0x20)
  {
    var t := Unquote(csv, false);
    if FirstReach(t, n).None? {
      BytesSpacing(t);
    } else {
      ReachedSpacing(t, n);
    }
  }

  /** The cut made once the limit is reached is well spaced. */
  lemma ReachedSpacing(t: seq<CodePoint>, n: nat)
    requires FirstReach(t, n).Some? && FromText(t, n).Sample?
    ensures var r := FromText(t, n).bytes;
      && (|r| > 0 ==> r[0] != 0x20)
      && forall i :: 0 <= i < |r| - 1 ==> !(r[i] == 0x20 && r[i + 1] == 0x20)
  {
    var k := FirstReach(t, n).value;
    FirstReachSome(t, n);
    var s := Bytes(t[..k]);
    var w := LastWordEnd(t[..k]);
    assert FromText(t, n) == Cut(s, w, n);
    BytesSpacing(t[..k]);
    LastWordEndIsSpace(t[..k]);
    if w > n / 2 {
      CutSpacing(s, w, SPACE_DOTS);
    } else {
      CutSpacing(s, n - 3, DOTS);
    }
  }

  /** A piece of a well-spaced sample followed by dots is well spaced when
      the piece ends just before a space or the dots have no leading
      space. */
  lemma CutSpacing(s: seq<Byte>, m: nat, dots: seq<Byte>)
    requires m <= |s|
    requires |s| > 0 ==> s[0] != 0x20
    requires forall i :: 0 <= i < |s| - 1 ==> !(s[i] == 0x20 && s[i + 1] == 0x20)
    requires dots == DOTS || (dots == SPACE_DOTS && 0 < m < |s| && s[m] == 0x20)
    ensures var r := s[..m] + dots;
      && (|r| > 0 ==> r[0] != 0x20)
      && forall i :: 0 <= i < |r| - 1 ==> !(r[i] == 0x20 && r[i + 1] == 0x20)
  {
    var r := s[..m] + dots;
    forall i | 0 <= i < |r| - 1
      ensures !(r[i] == 0x20 && r[i + 1] == 0x20)
    {
      if i + 1 < m {
        assert r[i] == s[i] && r[i + 1] == s[i + 1];
      } else if i + 1 == m {
        assert r[i] == s[i];
      }
    }
    if m > 0 {
      assert r[0] == s[0];
    }
  }

  // ---------------------------------------------------------------------
  // The loop

  /** The quoting part of one turn of the loop at position i: either one
      character for the sample (got), or none when the character is a
      quote that opens quoting or a closing quote at the very end; and the
      position and quoting state the next turn starts with. */
  method ReadChar(csv: seq<CodePoint>, i: nat, inQuotes: bool) returns (got: bool, ch: CodePoint, next: nat, q: bool)
    requires i < |csv|
    ensures i < next <= |csv|
    ensures Unquote(csv[i..], inQuotes) == (if got then [ch] else []) + Unquote(csv[next..], q)
  {
    ch := csv[i];
    got, next, q := true, i + 1, inQuotes;
    if !inQuotes {
      // A quote outside quotes opens quoting and is dropped; a comma
      // becomes a space.
      if ch == QUOTE {
        got, q := false, true;
      } else {
        ch := FieldSep(ch);
      }
    } else if ch == QUOTE {
      // In quotes, '"' either ends the quoting or, doubled, stands for
      // itself; a quote at the very end ends the sample text.
      if i + 1 == |csv| {
        got := false;
        return;
      }
      ch := csv[i + 1];
      next := i + 2;
      assert csv[i..][2..] == csv[next..];
      if ch != QUOTE {
        q := false;
        ch := FieldSep(ch);
      }
    }
    assert csv[i..][1..] == csv[i + 1..];
  }

  /** The squeezing part of one turn of the loop: whitespace after
      whitespace (or at the start) adds nothing, other whitespace adds one
      space and marks a word end, anything else adds its UTF-8 bytes. */
  method AddChar(sample: seq<Byte>, lastWordEnd: nat, inSpace: bool, ch: CodePoint, ghost t: seq<CodePoint>)
    returns (wrote: bool, sample': seq<Byte>, lastWordEnd': nat, inSpace': bool)
    requires sample == Bytes(t) && inSpace == InSpace(t) && lastWordEnd == LastWordEnd(t)
    ensures wrote == Appends(t + [ch])
    ensures sample' == Bytes(t + [ch]) && inSpace' == InSpace(t + [ch]) && lastWordEnd' == LastWordEnd(t + [ch])
  {
    Snoc(t, ch);
    wrote, sample', lastWordEnd', inSpace' := false, sample, lastWordEnd, inSpace;
    if IsWs(ch) {
      if inSpace {
        return;
      }
      lastWordEnd' := |sample|;
      sample' := sample + [0x20];
      inSpace' := true;
    } else {
      sample' := sample + Utf8(ch);
      inSpace' := false;
    }
    wrote := true;
  }

  /** A character for the sample: add it and, when that makes the sample
      reach n bytes, finish with the truncated sample (done), whatever the
      rest of the text would have been. */
  method Feed(sample: seq<Byte>, lastWordEnd: nat, inSpace: bool, ch: CodePoint, n: nat,
              ghost t: seq<CodePoint>, ghost rest: seq<CodePoint>)
    returns (done: Option<CsvResult>, sample': seq<Byte>, lastWordEnd': nat, inSpace': bool)
    requires sample == Bytes(t) && inSpace == InSpace(t) && lastWordEnd == LastWordEnd(t)
    requires FirstReach(t, n).None?
    ensures done.Some? ==> done.value == FromText(t + [ch] + rest, n)
    ensures done.None? ==> FirstReach(t + [ch], n).None?
    ensures sample' == Bytes(t + [ch]) && inSpace' == InSpace(t + [ch]) && lastWordEnd' == LastWordEnd(t + [ch])
  {
    var wrote;
    wrote, sample', lastWordEnd', inSpace' := AddChar(sample, lastWordEnd, inSpace, ch, t);
    SnocReach(t, ch, n);
    done := None;
    if wrote && |sample'| >= n {
      ReachedAtEnd(t + [ch], rest, n);
      var r := Truncate(sample', lastWordEnd', n);
      done := Some(r);
    }
  }

  /** The truncation once the sample has reached n bytes. */
  method Truncate(sample: seq<Byte>, lastWordEnd: nat, n: nat) returns (r: CsvResult)
    requires n <= |sample| && lastWordEnd <= |sample|
    ensures r == Cut(sample, lastWordEnd, n)
  {
    if lastWordEnd <= n / 2 {
      // No word ends past the middle: cut at sample_size - 3.
      if n < 3 {
        return OutOfRange;
      }
      r := Sample(sample[..n - 3] + DOTS);
    } else {
      r := Sample(sample[..lastWordEnd] + SPACE_DOTS);
    }
  }

  /** What the loop keeps: the text read so far is t, its unread rest is
      csvData[i..] read with the quoting state, the sample and the flags
      are those of t, and the limit has not been reached. */
  ghost predicate Reading(csvData: seq<CodePoint>, n: nat, i: nat, inQuotes: bool, t: seq<CodePoint>,
                          sample: seq<Byte>, lastWordEnd: nat, inSpace: bool)
  {
    && i <= |csvData|
    && Unquote(csvData, false) == t + Unquote(csvData[i..], inQuotes)
    && sample == Bytes(t) && inSpace == InSpace(t) && lastWordEnd == LastWordEnd(t)
    && FirstReach(t, n).None?
  }

  /** One turn of the loop: read a character and feed it to the sample;
      either the sample is finished (done) or reading goes on. */
  method Turn(csvData: seq<CodePoint>, n: nat, i: nat, inQuotes: bool, ghost t: seq<CodePoint>,
              sample: seq<Byte>, lastWordEnd: nat, inSpace: bool)
    returns (done: Option<CsvResult>, i': nat, inQuotes': bool, ghost t': seq<CodePoint>,
             sample': seq<Byte>, lastWordEnd': nat, inSpace': bool)
    requires i < |csvData|
    requires Reading(csvData, n, i, inQuotes, t, sample, lastWordEnd, inSpace)
    ensures i < i'
    ensures done.Some? ==> done.value == CsvSample(csvData, n)
    ensures done.None? ==> Reading(csvData, n, i', inQuotes', t', sample', lastWordEnd', inSpace')
  {
    var got, ch;
    got, ch, i', inQuotes' := ReadChar(csvData, i, inQuotes);
    done, t', sample', lastWordEnd', inSpace' := None, t, sample, lastWordEnd, inSpace;
    ghost var rest := Unquote(csvData[i'..], inQuotes');
    if got {
      assert Unquote(csvData, false) == t + [ch] + rest by {
        assert t + ([ch] + rest) == t + [ch] + rest;
      }
      done, sample', lastWordEnd', inSpace' := Feed(sample, lastWordEnd, inSpace, ch, n, t, rest);
      t' := t + [ch];
    } else {
      assert Unquote(csvData, false) == t + rest by {
        assert [] + rest == rest;
      }
    }
  }

  /** generate_sample_from_csv: one pass over the code points, tracking the
      quoting state, whether the sample ends in a space and where the last
      word ended, and stopping as soon as the sample reaches sampleSize
      bytes. */
  method GenerateSampleFromCsv(csvData: seq<CodePoint>, sampleSize: nat) returns (r: CsvResult)
    ensures r == CsvSample(csvData, sampleSize)
  {
    var sample: seq<Byte> := [];
    var lastWordEnd: nat := 0;
    var inSpace := true;
    var inQuotes := false;
    ghost var t: seq<CodePoint> := [];
    var i := 0;
    assert csvData[i..] == csvData;
    while i < |csvData|
      invariant Reading(csvData, sampleSize, i, inQuotes, t, sample, lastWordEnd, inSpace)
      decreases |csvData| - i
    {
      var done;
      done, i, inQuotes, t, sample, lastWordEnd, inSpace :=
        Turn(csvData, sampleSize, i, inQuotes, t, sample, lastWordEnd, inSpace);
      if done.Some? {
        return done.value;
      }
    }
    assert csvData[i..] == [];
    assert t + Unquote([], inQuotes) == t;
    NotReached(t, sampleSize);
    r := Sample(sample);
  }
}
