/** Model of the reading of pdfinfo's output in the Omega file indexer
    (xapian-applications/omega/index_file.cc): parse_pdfinfo_field and the
    line loop of get_pdf_metainfo.  Running pdfinfo is left out; its output
    is a parameter, None standing for the ReadError that makes the indexer
    keep the fields as they were. */
module OmegaPdfinfo {

  import opened Common

  /** The four fields get_pdf_metainfo fills. */
  datatype PdfMeta = PdfMeta(author: string, title: string, keywords: string, topic: string)

  const AUTHOR: string := "Author:"
  const KEYWORDS: string := "Keywords:"
  const SUBJECT: string := "Subject:"
  const TITLE: string := "Title:"

  /** The first index at or after from that does not hold a space, or |s|. */
  function SkipSpaces(s: string, from: nat): (r: nat)
    requires from <= |s|
    ensures from <= r <= |s|
    ensures r < |s| ==> s[r] != ' '
    ensures forall j :: from <= j < r ==> s[j] == ' '
    decreases |s| - from
  {
    if from == |s| || s[from] != ' ' then from else SkipSpaces(s, from + 1)
  }

  /** The value a pdfinfo line gives for field: the line must be longer
      than the field name and start with it; the value follows after any
      spaces, loses one trailing carriage return, and must not be empty. */
  function PdfinfoValue(line: string, field: string): (r: Option<string>)
    ensures r.Some? ==> |line| > |field| && line[..|field|] == field
    ensures r.Some? ==> r.value != [] && r.value[0] != ' '
    ensures r.Some? ==> EndsWith(line, r.value) || EndsWith(line, r.value + "\r")
  {
    if |line| > |field| && line[..|field|] == field then
      var p := SkipSpaces(line, |field|);
      if p == |line| then None
      else
        var e := if line[|line| - 1] == '\r' then |line| - 1 else |line|;
        if e == p then None
        else
          assert line[p..e] + line[e..] == line[p..];
          Some(line[p..e])
    else None
  }

  function Spaces(k: nat): (r: string)
    ensures |r| == k && forall j :: 0 <= j < k ==> r[j] == ' '
  {
    seq(k, _ => ' ')
  }

  /** A line made of the field name, some spaces and a value that does not
      start with a space gives that value back, with or without a carriage
      return after it (without one, the value must not end in one). */
  lemma PdfinfoRoundTrip(field: string, k: nat, v: string, cr: bool)
    requires v != [] && v[0] != ' '
    requires !cr ==> v[|v| - 1] != '\r'
    ensures PdfinfoValue(field + Spaces(k) + v + (if cr then "\r" else ""), field) == Some(v)
  {
    var line := field + Spaces(k) + v + (if cr then "\r" else "");
    assert line[..|field|] == field;
    var p := SkipSpaces(line, |field|);
    assert line[|field| + k] == v[0];
    assert p == |field| + k;
    var e := if line[|line| - 1] == '\r' then |line| - 1 else |line|;
    if cr {
      assert line[|line| - 1] == '\r';
    } else {
      assert line[|line| - 1] == v[|v| - 1];
    }
    assert line[p..e] == v;
  }

  /** The field name followed only by spaces, or by spaces and a carriage
      return, gives no value. */
  lemma PdfinfoNoValue(field: string, k: nat, cr: bool)
    ensures PdfinfoValue(field + Spaces(k) + (if cr then "\r" else ""), field) == None
  {
    var line := field + Spaces(k) + (if cr then "\r" else "");
    if |line| > |field| {
      assert line[..|field|] == field;
      var p := SkipSpaces(line, |field|);
      assert p >= |field| + k;
      if cr {
        assert line[|line| - 1] == '\r';
      }
    }
  }

  /** parse_pdfinfo_field: set out to the value of field on this line, if
      the line gives one; otherwise leave it alone. */
  method ParsePdfinfoField(line: string, field: string, out: string) returns (out': string)
    ensures out' == match PdfinfoValue(line, field) case Some(v) => v case None => out
  {
    out' := out;
    if |line| > |field| && line[..|field|] == field {
      var p := |field|;
      while p < |line| && line[p] == ' '
        invariant |field| <= p <= |line|
        invariant SkipSpaces(line, |field|) == SkipSpaces(line, p)
      {
        p := p + 1;
      }
      var e := |line|;
      if p != e {
        if line[e - 1] == '\r' {
          e := e - 1;
        }
        if e != p {
          out' := line[p..e];
        }
      }
    }
  }

  /** The value of field on line if it gives one, else the old value. */
  function Pick(line: string, field: string, old_: string): string
  {
    match PdfinfoValue(line, field)
    case Some(v) => v
    case None => old_
  }

  /** One line of pdfinfo's output, dispatched on its first character. */
  function ApplyLine(m: PdfMeta, line: string): PdfMeta
  {
    if line == [] then m
    else if line[0] == 'A' then m.(author := Pick(line, AUTHOR, m.author))
    else if line[0] == 'K' then m.(keywords := Pick(line, KEYWORDS, m.keywords))
    else if line[0] == 'S' then m.(topic := Pick(line, SUBJECT, m.topic))
    else if line[0] == 'T' then m.(title := Pick(line, TITLE, m.title))
    else m
  }

  /** Dispatching on the first character is the same as trying every field
      name on every line: a name only matches lines starting with its own
      first letter. */
  lemma ApplyLineFieldwise(m: PdfMeta, line: string)
    ensures ApplyLine(m, line) == PdfMeta(Pick(line, AUTHOR, m.author), Pick(line, TITLE, m.title),
                                          Pick(line, KEYWORDS, m.keywords), Pick(line, SUBJECT, m.topic))
  {
    assert AUTHOR[0] == 'A' && KEYWORDS[0] == 'K' && SUBJECT[0] == 'S' && TITLE[0] == 'T';
    if line != [] {
      assert line[0] != 'A' ==> PdfinfoValue(line, AUTHOR).None? by {
        if PdfinfoValue(line, AUTHOR).Some? {
          assert line[..|AUTHOR|][0] == line[0];
        }
      }
      assert line[0] != 'K' ==> PdfinfoValue(line, KEYWORDS).None? by {
        if PdfinfoValue(line, KEYWORDS).Some? {
          assert line[..|KEYWORDS|][0] == line[0];
        }
      }
      assert line[0] != 'S' ==> PdfinfoValue(line, SUBJECT).None? by {
        if PdfinfoValue(line, SUBJECT).Some? {
          assert line[..|SUBJECT|][0] == line[0];
        }
      }
      assert line[0] != 'T' ==> PdfinfoValue(line, TITLE).None? by {
        if PdfinfoValue(line, TITLE).Some? {
          assert line[..|TITLE|][0] == line[0];
        }
      }
    }
  }

  /** The lines of text from index p on: split at each newline, with no
      empty line after a final newline. */
  function LinesFrom(text: string, p: nat): (r: seq<string>)
    requires p <= |text|
    ensures forall j :: 0 <= j < |r| ==> '\n' !in r[j]
    decreases |text| - p
  {
    if p == |text| then []
    else
      var eol := FindFrom(text, '\n', p);
      assert '\n' !in text[p..eol] by {
        FindFromFirst(text, '\n', p);
        forall j | 0 <= j < |text[p..eol]| ensures text[p..eol][j] != '\n' {
          assert text[p..eol][j] == text[p + j];
        }
      }
      [text[p..eol]] + LinesFrom(text, if eol < |text| then eol + 1 else |text|)
  }

  function Lines(text: string): seq<string>
  {
    LinesFrom(text, 0)
  }

  /** The fields after the lines ls, in order. */
  function ApplyAll(m: PdfMeta, ls: seq<string>): PdfMeta
    decreases |ls|
  {
    if ls == [] then m else ApplyAll(ApplyLine(m, ls[0]), ls[1..])
  }

  /** The value field ends up with after the lines ls, starting from d. */
  function LastValue(ls: seq<string>, field: string, d: string): string
    decreases |ls|
  {
    if ls == [] then d else LastValue(ls[1..], field, Pick(ls[0], field, d))
  }

  /** The value a field ends up with is that of the last line that gives
      one, or d when no line does. */
  lemma {:induction false} LastValueIsLast(ls: seq<string>, field: string, d: string)
    ensures (forall j :: 0 <= j < |ls| ==> PdfinfoValue(ls[j], field).None?) ==> LastValue(ls, field, d) == d
    ensures (exists j :: 0 <= j < |ls| && PdfinfoValue(ls[j], field).Some?) ==>
      exists j :: 0 <= j < |ls| && PdfinfoValue(ls[j], field) == Some(LastValue(ls, field, d))
                  && forall k :: j < k < |ls| ==> PdfinfoValue(ls[k], field).None?
    decreases |ls|
  {
    if ls != [] {
      var tl := ls[1..];
      var d' := Pick(ls[0], field, d);
      var r := LastValue(ls, field, d);
      LastValueIsLast(tl, field, d');
      assert forall k :: 1 <= k < |ls| ==> ls[k] == tl[k - 1];
      if exists j :: 0 <= j < |tl| && PdfinfoValue(tl[j], field).Some? {
        var j :| 0 <= j < |tl| && PdfinfoValue(tl[j], field) == Some(r)
                 && forall k :: j < k < |tl| ==> PdfinfoValue(tl[k], field).None?;
        assert PdfinfoValue(ls[j + 1], field) == Some(r);
      } else if PdfinfoValue(ls[0], field).Some? {
        assert PdfinfoValue(ls[0], field) == Some(r);
      }
    }
  }

  /** Each field ends up with the value of the last line for it: a later
      line overrides an earlier one, and a field no line gives keeps its
      value. */
  lemma {:induction false} ApplyAllLastWins(m: PdfMeta, ls: seq<string>)
    ensures ApplyAll(m, ls) == PdfMeta(LastValue(ls, AUTHOR, m.author), LastValue(ls, TITLE, m.title),
                                       LastValue(ls, KEYWORDS, m.keywords), LastValue(ls, SUBJECT, m.topic))
    decreases |ls|
  {
    if ls != [] {
      ApplyLineFieldwise(m, ls[0]);
      ApplyAllLastWins(ApplyLine(m, ls[0]), ls[1..]);
    }
  }

  /** get_pdf_metainfo: walk the output a line at a time and let each line
      starting with A, K, S or T set its field. */
  method GetPdfMetainfo(output: Option<string>, m0: PdfMeta) returns (m: PdfMeta)
    ensures output.None? ==> m == m0
    ensures output.Some? ==> m == ApplyAll(m0, Lines(output.value))
  {
    m := m0;
    if output.None? {
      // pdfinfo failed: index the document anyway.
      return;
    }
    var text := output.value;
    var p := 0;
    while p != |text|
      invariant p <= |text|
      invariant ApplyAll(m0, Lines(text)) == ApplyAll(m, LinesFrom(text, p))
      decreases |text| - p
    {
      var start := p;
      var eol := FindFrom(text, '\n', p);
      p := if eol < |text| then eol + 1 else |text|;
      var line := text[start..eol];
      if line != [] {
        var c := line[0];
        if c == 'A' {
          var v := ParsePdfinfoField(line, AUTHOR, m.author);
          m := m.(author := v);
        } else if c == 'K' {
          var v := ParsePdfinfoField(line, KEYWORDS, m.keywords);
          m := m.(keywords := v);
        } else if c == 'S' {
          var v := ParsePdfinfoField(line, SUBJECT, m.topic);
          m := m.(topic := v);
        } else if c == 'T' {
          var v := ParsePdfinfoField(line, TITLE, m.title);
          m := m.(title := v);
        }
      }
    }
  }
}
