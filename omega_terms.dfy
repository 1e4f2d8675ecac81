/** Model of the small text rules index_mimetype applies once a file's
    text and metadata are known (xapian-applications/omega/index_file.cc):
    trimming trailing formfeeds from the extracted text, cutting the
    extension off the leafname, deriving the month and year terms from the
    date term, and building the lower-cased extension term. */
module OmegaTerms {

  import opened Common

  const FORMFEED: char := 12 as char

  // ---------------------------------------------------------------------
  // Trailing formfeeds

  /** One past the last character of dump that is not a formfeed (what
      find_last_not_of gives, plus one), or 0 when there is none: the
      increment turns string::npos into 0. */
  function TrimEnd(dump: string): (r: nat)
    ensures r <= |dump|
    ensures r > 0 ==> dump[r - 1] != FORMFEED
    ensures forall j :: r <= j < |dump| ==> dump[j] == FORMFEED
    decreases |dump|
  {
    if dump == [] then 0
    else if dump[|dump| - 1] != FORMFEED then |dump|
    else TrimEnd(dump[..|dump| - 1])
  }

  /** The extracted text without its trailing formfeeds: the longest prefix
      of dump that does not end in a formfeed. */
  function TrimFormfeeds(dump: string): (r: string)
    ensures |r| <= |dump| && r == dump[..|r|]
    ensures r == [] || r[|r| - 1] != FORMFEED
    ensures forall j :: |r| <= j < |dump| ==> dump[j] == FORMFEED
  {
    var trimEnd := TrimEnd(dump);
    if trimEnd != |dump| then dump[..trimEnd] else dump
  }

  function Formfeeds(k: nat): (r: string)
    ensures |r| == k && forall j :: 0 <= j < k ==> r[j] == FORMFEED
  {
    seq(k, _ => FORMFEED)
  }

  /** Formfeeds after some text are dropped and the text is kept whole
      when it does not end in one; text made only of formfeeds leaves
      nothing. */
  lemma TrimDropsFormfeeds(text: string, k: nat)
    requires text == [] || text[|text| - 1] != FORMFEED
    ensures TrimFormfeeds(text + Formfeeds(k)) == text
  {
    var dump := text + Formfeeds(k);
    assert dump[..|text|] == text;
  }

  /** Trimming twice is trimming once. */
  lemma TrimFormfeedsIdempotent(dump: string)
    ensures TrimFormfeeds(TrimFormfeeds(dump)) == TrimFormfeeds(dump)
  {
    var r := TrimFormfeeds(dump);
    TrimDropsFormfeeds(r, 0);
    assert r + Formfeeds(0) == r;
  }

  // ---------------------------------------------------------------------
  // Leafname

  /** The leafname indexed with prefix F: cut at its last dot when there is
      one and what follows the dot is at most maxExtLen long. */
  function LeafStem(leaf: string, maxExtLen: nat): (r: string)
    ensures r == leaf || (|r| < |leaf| && r == leaf[..|r|] && leaf[|r|] == '.' && |leaf| - |r| - 1 <= maxExtLen)
    ensures r != leaf ==> forall j :: |r| < j < |leaf| ==> leaf[j] != '.'
  {
    match FindLast(leaf, '.')
    case Some(dot) => if |leaf| - dot - 1 <= maxExtLen then leaf[..dot] else leaf
    case None => leaf
  }

  /** A leafname without a dot is kept whole. */
  lemma LeafStemNoDot(leaf: string, maxExtLen: nat)
    requires '.' !in leaf
    ensures LeafStem(leaf, maxExtLen) == leaf
  {
  }

  /** A leafname with a dot is stem "." ext for the ext after its last
      dot; it is cut to the stem exactly when ext is at most maxExtLen
      long. */
  lemma LeafStemLastDot(stem: string, ext: string, maxExtLen: nat)
    requires '.' !in ext
    ensures LeafStem(stem + "." + ext, maxExtLen) == if |ext| <= maxExtLen then stem else stem + "." + ext
  {
    var leaf := stem + "." + ext;
    assert leaf[|stem|] == '.';
    assert forall j :: |stem| < j < |leaf| ==> leaf[j] == ext[j - |stem| - 1];
    var dot := FindLast(leaf, '.');
    assert dot == Some(|stem|);
    assert leaf[..|stem|] == stem;
  }

  // ---------------------------------------------------------------------
  // Date terms

  /** std::string::resize: cut to n characters, or pad with NULs up to n. */
  function Resize(s: string, n: nat): (r: string)
    ensures |r| == n
    ensures forall j :: 0 <= j < n ==> r[j] == if j < |s| then s[j] else '\0'
  {
    if n <= |s| then s[..n] else s + seq(n - |s|, _ => '\0')
  }

  /** The day, month and year terms added for a file. */
  datatype DateTerms = DateTerms(day: string, month: string, year: string)

  /** The terms made from date, the text date_to_string gives for the
      file's modification day: the day term is "D" + date; the month term
      is that cut (or padded) to 7 characters with its first turned into M;
      the year term is the month term cut to 5 characters with its first
      turned into Y. */
  function MakeDateTerms(date: string): (r: DateTerms)
    ensures r.day == "D" + date
    ensures |r.month| == 7 && r.month[0] == 'M'
    ensures forall j :: 1 <= j < 7 ==> r.month[j] == if j <= |date| then date[j - 1] else '\0'
    ensures |r.year| == 5 && r.year[0] == 'Y'
    ensures forall j :: 1 <= j < 5 ==> r.year[j] == r.month[j]
  {
    var day := "D" + date;
    var month := Resize(day, 7)[0 := 'M'];
    var year := Resize(month, 5)[0 := 'Y'];
    DateTerms(day, month, year)
  }

  /** For a date of the usual eight digits YYYYMMDD (or any text at least
      six long), the month term is M with the first six characters and the
      year term Y with the first four; whatever the date, the year term is
      Y with the four characters of the month term after its M. */
  lemma DateTermsTruncate(date: string)
    ensures var ts := MakeDateTerms(date);
      && |ts.month| == 7 && |ts.year| == 5
      && ts.year == "Y" + ts.month[1..5]
      && (|date| >= 6 ==> ts.month == "M" + date[..6])
      && (|date| >= 4 ==> ts.year == "Y" + date[..4])
  {
    var ts := MakeDateTerms(date);
    var day := "D" + date;
    assert ts.year == "Y" + ts.month[1..5];
    if |date| >= 4 {
      assert forall j :: 1 <= j < 5 ==> ts.year[j] == day[j] == date[j - 1];
      assert ts.year == "Y" + date[..4];
    }
    if |date| >= 6 {
      assert forall j :: 1 <= j < 7 ==> ts.month[j] == day[j] == date[j - 1];
      assert ts.month == "M" + date[..6];
    }
  }

  // ---------------------------------------------------------------------
  // Extension term

  /** The extension term: E followed by the extension with ASCII capitals
      made lower case (ch | 32 on 'A'..'Z' adds 32). */
  method ExtTerm(ext: string) returns (term: string)
    ensures term == "E" + LowerAscii(ext)
  {
    term := "E";
    var i := 0;
    while i < |ext|
      invariant 0 <= i <= |ext|
      invariant term == "E" + LowerAscii(ext[..i])
    {
      var ch := ext[i];
      if 'A' <= ch <= 'Z' {
        ch := (ch as int + 32) as char;
      }
      assert LowerAscii(ext[..i + 1]) == LowerAscii(ext[..i]) + [ToLowerAscii(ext[i])];
      term := term + [ch];
      i := i + 1;
    }
    assert ext[..i] == ext;
  }
}
