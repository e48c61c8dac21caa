/** `parse_offer` (streamlit_app.py:41-68): the free-text summary of a
    student's admission offers, e.g.
    "경운대학교(구미)/학생부교과(일반전형1)/의료서비스경영학과, 기타대학...",
    reduced to the university, the raw track label and the department of the
    FIRST comma-separated offer. A missing (NaN) or non-string cell is `None`. */
module OfferParser {
  import opened Wrappers
  import opened Text

  /** The three parsed columns: 대표대학, 전형유형원문 and 대표학과. */
  datatype Offer = Offer(university: Option<string>, trackLabel: Option<string>, department: Option<string>)

  /** The all-`None` result returned for a missing or blank summary. */
  const NoOffer: Offer := Offer(None, None, None)

  /** `text.split(",")[0].strip()`: the first offer of the summary. It is
      trimmed and comma-free, and a summary without a comma is one offer. */
  function FirstEntry(text: string): (r: string)
    ensures ',' !in r && Trimmed(r)
    ensures ',' !in text ==> r == Strip(text)
  {
    FirstPieceClean(text);
    Strip(Split(text, ',')[0])
  }

  /** The facts `FirstEntry` promises, about its defining expression. */
  lemma FirstPieceClean(text: string)
    ensures var r := Strip(Split(text, ',')[0]);
            ',' !in r && Trimmed(r) && (',' !in text ==> r == Strip(text))
  {
    var e := Split(text, ',')[0];
    assert ',' !in e by {
      SplitFirstPiece(text, ',');
    }
    TrimKeepsOut(e, ',');
    if ',' !in text {
      assert e == text by {
        SplitNoSeparator(text, ',');
      }
    }
  }

  /** Lines 51-66, applied to the first offer: split on `/`; the university
      is the trimmed part of segment 0 before its first `(`; the track label
      is segment 1 trimmed, or the trimmed segment 0 itself when there is no
      `/`; the department is segment 2 trimmed, if there is one. */
  function ParseEntry(first: string): (o: Offer)
    ensures o.university.Some? && o.trackLabel.Some?
    ensures o.department.Some? <==> |Split(first, '/')| >= 3
  {
    var parts := Split(first, '/');
    var uniPart := Strip(parts[0]);
    Offer(Some(Strip(Split(uniPart, '(')[0])),
          Some(if |parts| > 1 then Strip(parts[1]) else uniPart),
          if |parts| > 2 then Some(Strip(parts[2])) else None)
  }

  /** `parse_offer(text)`. A missing or whitespace-only summary gives the
      all-`None` result and only that; any other summary yields a university
      (possibly the empty string) and a track label. */
  function ParseOffer(text: Option<string>): (o: Offer)
    ensures o.university.None? <==> text.None? || IsBlank(text.value)
    ensures o.university.None? ==> o == NoOffer
    ensures o.university.Some? ==> o.trackLabel.Some?
  {
    if text.None? || Strip(text.value) == [] then NoOffer
    else ParseEntry(FirstEntry(text.value))
  }

  /** Every parsed field is trimmed and free of the delimiters that bound
      it: no field contains a comma, the university contains neither `/` nor
      `(`, and the department contains no `/`. */
  lemma ParsedFieldsClean(text: Option<string>)
    ensures var o := ParseOffer(text);
            && (o.university.Some? ==> var u := o.university.value;
                  ',' !in u && '/' !in u && '(' !in u && Trimmed(u))
            && (o.trackLabel.Some? ==> ',' !in o.trackLabel.value && Trimmed(o.trackLabel.value))
            && (o.department.Some? ==> var d := o.department.value;
                  ',' !in d && '/' !in d && Trimmed(d))
  {
    if text.Some? && Strip(text.value) != [] {
      EntryFieldsClean(FirstEntry(text.value));
    }
  }

  /** `ParsedFieldsClean` for one comma-free entry. */
  lemma EntryFieldsClean(first: string)
    requires ',' !in first
    ensures var o := ParseEntry(first);
            var u := o.university.value;
            && ',' !in u && '/' !in u && '(' !in u && Trimmed(u)
            && ',' !in o.trackLabel.value && Trimmed(o.trackLabel.value)
            && (o.department.Some? ==> var d := o.department.value;
                  ',' !in d && '/' !in d && Trimmed(d))
  {
    var parts := Split(first, '/');
    var o := ParseEntry(first);
    assert o.university == Some(Strip(Split(Strip(parts[0]), '(')[0]));
    assert o.trackLabel == Some(if |parts| > 1 then Strip(parts[1]) else Strip(parts[0]));
    assert o.department == if |parts| > 2 then Some(Strip(parts[2])) else None;
    SplitKeepsOut(first, '/', ',');
    SplitPiecesFree(first, '/');
    UniversityClean(parts[0]);
    TrimKeepsOut(parts[0], ',');
    if |parts| > 1 {
      StripClean(parts[1], ',', ',');
    } else {
      StripClean(parts[0], ',', ',');
    }
    if |parts| > 2 {
      StripClean(parts[2], ',', '/');
    }
  }

  /** Stripping keeps two absent characters out and leaves no whitespace at
      either end. */
  lemma StripClean(x: string, c: char, c': char)
    requires c !in x && c' !in x
    ensures c !in Strip(x) && c' !in Strip(x) && Trimmed(Strip(x))
  {
    TrimKeepsOut(x, c);
    TrimKeepsOut(x, c');
  }

  /** The university read from the first segment is clean. */
  lemma UniversityClean(seg: string)
    requires ',' !in seg && '/' !in seg
    ensures var u := Strip(Split(Strip(seg), '(')[0]);
            ',' !in u && '/' !in u && '(' !in u && Trimmed(u)
  {
    var uniPart := Strip(seg);
    TrimKeepsOut(seg, ',');
    TrimKeepsOut(seg, '/');
    var p := Split(uniPart, '(')[0];
    SplitPiecesFree(uniPart, '(');
    SplitKeepsOut(uniPart, '(', ',');
    SplitKeepsOut(uniPart, '(', '/');
    StripClean(p, ',', '/');
    TrimKeepsOut(p, '(');
  }

  /** What the parse means in terms of the raw text: with `e` the part before
      the first comma and `segs` its `/`-separated segments (neither
      stripped), the university is the trimmed part of `segs[0]` before its
      first `(`, the track label is `segs[1]` trimmed or, with a single
      segment, the whole trimmed `e`, and the department is `segs[2]`
      trimmed exactly when there are at least three segments. Segments past
      the third play no part. */
  lemma OfferFields(text: string)
    requires !IsBlank(text)
    ensures var e := Split(text, ',')[0];
            var segs := Split(e, '/');
            var o := ParseOffer(Some(text));
            && o.university == Some(Strip(Split(segs[0], '(')[0]))
            && o.trackLabel == Some(if |segs| > 1 then Strip(segs[1]) else Strip(e))
            && o.department == (if |segs| > 2 then Some(Strip(segs[2])) else None)
  {
    var e := Split(text, ',')[0];
    var segs := Split(e, '/');
    var o := ParseOffer(Some(text));
    ParseNonBlank(text);
    assert o.university == Some(Strip(Split(segs[0], '(')[0])) by {
      EntryUniversity(e);
    }
    assert o.trackLabel == Some(if |segs| > 1 then Strip(segs[1]) else Strip(e)) by {
      EntryTrackLabel(e);
    }
    assert o.department == (if |segs| > 2 then Some(Strip(segs[2])) else None) by {
      EntryDepartment(e);
    }
  }

  /** The university of a stripped entry, read off the raw entry. */
  lemma EntryUniversity(e: string)
    ensures ParseEntry(Strip(e)).university == Some(Strip(Split(Split(e, '/')[0], '(')[0]))
  {
    var raw := Split(e, '/')[0];
    calc {
      ParseEntry(Strip(e)).university;
    == { UniversityOfEntry(Strip(e)); }
      Some(Strip(Split(Strip(Split(Strip(e), '/')[0]), '(')[0]));
    == { SplitStripAt(e, '/', 0); }
      Some(Strip(Split(Strip(raw), '(')[0]));
    == { StripBeforeSeparator(raw, '('); }
      Some(Strip(Split(raw, '(')[0]));
    }
  }

  /** The university field, spelt out. */
  lemma UniversityOfEntry(first: string)
    ensures ParseEntry(first).university == Some(Strip(Split(Strip(Split(first, '/')[0]), '(')[0]))
  {
  }

  /** The track label of a stripped entry, read off the raw entry. */
  lemma EntryTrackLabel(e: string)
    ensures var segs := Split(e, '/');
            ParseEntry(Strip(e)).trackLabel == Some(if |segs| > 1 then Strip(segs[1]) else Strip(e))
  {
    if |Split(e, '/')| == 1 {
      TrackLabelSingle(e);
    } else {
      TrackLabelOfSegment(e);
    }
  }

  /** Without a `/` the track label is the whole stripped entry. */
  lemma TrackLabelSingle(e: string)
    requires |Split(e, '/')| == 1
    ensures ParseEntry(Strip(e)).trackLabel == Some(Strip(e))
  {
    var first := Strip(e);
    assert '/' !in e by {
      JoinSplit(e, '/');
      SplitPiecesFree(e, '/');
    }
    TrimKeepsOut(e, '/');
    SplitNoSeparator(first, '/');
    assert Split(first, '/')[0] == first;
    StripIdempotent(e);
  }

  /** With a `/` the track label is the second raw segment, stripped. */
  lemma TrackLabelOfSegment(e: string)
    requires |Split(e, '/')| > 1
    ensures ParseEntry(Strip(e)).trackLabel == Some(Strip(Split(e, '/')[1]))
  {
    var segs := Split(e, '/');
    var parts := Split(Strip(e), '/');
    assert !IsSpace('/');
    assert ParseEntry(Strip(e)).trackLabel
        == Some(if |parts| > 1 then Strip(parts[1]) else Strip(parts[0]));
    assert |parts| == |segs| && Strip(parts[1]) == Strip(segs[1]) by {
      SplitStripAt(e, '/', 1);
    }
  }

  /** The department of a stripped entry, read off the raw entry. */
  lemma EntryDepartment(e: string)
    ensures var segs := Split(e, '/');
            ParseEntry(Strip(e)).department == if |segs| > 2 then Some(Strip(segs[2])) else None
  {
    var segs := Split(e, '/');
    var parts := Split(Strip(e), '/');
    assert !IsSpace('/');
    assert |segs| >= 1;
    assert ParseEntry(Strip(e)).department
        == if |parts| > 2 then Some(Strip(parts[2])) else None;
    assert |parts| == |segs| by {
      SplitStripAt(e, '/', 0);
    }
    if |segs| > 2 {
      assert Strip(parts[2]) == Strip(segs[2]) by {
        SplitStripAt(e, '/', 2);
      }
    }
  }

  /** Only the first offer counts: whatever follows the first comma never
      reaches a parsed field. When the first entry is blank but the text as a
      whole is not, the fields are empty strings rather than `None`. */
  lemma FirstOfferOnly(first: string, others: string)
    requires ',' !in first
    ensures ParseOffer(Some(first + "," + others))
         == if IsBlank(first) then Offer(Some(""), Some(""), None)
            else ParseOffer(Some(first))
  {
    if IsBlank(first) {
      BlankFirstOffer(first, others);
    } else {
      FirstOfferKept(first, others);
    }
  }

  /** A blank first offer before a comma yields empty strings. */
  lemma BlankFirstOffer(first: string, others: string)
    requires ',' !in first && IsBlank(first)
    ensures ParseOffer(Some(first + "," + others)) == Offer(Some(""), Some(""), None)
  {
    FirstEntryBeforeComma(first, others);
    ParseNonBlank(first + "," + others);
    assert Strip(first) == [];
    EmptyEntry();
  }

  /** A non-blank first offer before a comma parses as if alone. */
  lemma FirstOfferKept(first: string, others: string)
    requires ',' !in first && !IsBlank(first)
    ensures ParseOffer(Some(first + "," + others)) == ParseOffer(Some(first))
  {
    FirstEntryBeforeComma(first, others);
    SplitNoSeparator(first, ',');
    ParseNonBlank(first + "," + others);
    ParseNonBlank(first);
  }

  /** A non-blank summary is parsed through its first entry. */
  lemma ParseNonBlank(text: string)
    requires !IsBlank(text)
    ensures ParseOffer(Some(text)) == ParseEntry(FirstEntry(text))
  {
    assert Strip(text) != [];
  }

  /** The first entry of "first,others" is `first` stripped, and the text
      is never blank. */
  lemma FirstEntryBeforeComma(first: string, others: string)
    requires ',' !in first
    ensures var text := first + "," + others;
            !IsBlank(text) && FirstEntry(text) == Strip(first)
  {
    var text := first + "," + others;
    assert text == first + [','] + others;
    SplitAtFirst(first, ',', others);
    assert text[|first|] == ',';
  }

  /** An empty first entry yields empty university and track label and no
      department. */
  lemma EmptyEntry()
    ensures ParseEntry("") == Offer(Some(""), Some(""), None)
  {
    assert Split("", '/') == [""];
    assert Split("", '(') == [""];
  }

  /** Nothing after the third `/`-segment of the first offer affects the
      result. */
  lemma LaterSegmentsIgnored(u: string, t: string, d: string, rest: string)
    requires ',' !in u && ',' !in t && ',' !in d && ',' !in rest
    requires '/' !in u && '/' !in t && '/' !in d
    ensures ParseOffer(Some(u + "/" + t + "/" + d + "/" + rest))
         == ParseOffer(Some(u + "/" + t + "/" + d))
  {
    var long := u + "/" + t + "/" + d + "/" + rest;
    SplitFourSegments(u, t, d, rest);
    var segs := Split(long, '/');
    assert segs[0] == u && segs[1] == t && segs[2] == d;
    SegmentFields(long, u, t, d);
    ThreeSegments(u, t, d);
  }

  /** How "u/t/d/rest" splits, for separator-free `u`, `t` and `d`. */
  lemma SplitFourSegments(u: string, t: string, d: string, rest: string)
    requires ',' !in u && ',' !in t && ',' !in d && ',' !in rest
    requires '/' !in u && '/' !in t && '/' !in d
    ensures var text := u + "/" + t + "/" + d + "/" + rest;
            !IsBlank(text) && Split(text, ',') == [text]
            && Split(text, '/') == [u, t, d] + Split(rest, '/')
  {
    var x := d + ['/'] + rest;
    var y := t + ['/'] + x;
    var text := u + ['/'] + y;
    assert text == u + "/" + t + "/" + d + "/" + rest;
    SplitAtFirst(d, '/', rest);
    SplitAtFirst(t, '/', x);
    SplitAtFirst(u, '/', y);
    var r := Split(rest, '/');
    assert Split(text, '/') == [u] + ([t] + ([d] + r));
    assert [u] + ([t] + ([d] + r)) == [u, t, d] + r;
    assert ',' !in x && ',' !in y && ',' !in text;
    SingleOfferText(text, |u|);
  }

  /** A comma-free text with a non-whitespace character is one non-blank
      offer. */
  lemma SingleOfferText(text: string, k: nat)
    requires ',' !in text && k < |text| && !IsSpace(text[k])
    ensures !IsBlank(text) && Split(text, ',') == [text]
  {
    SplitNoSeparator(text, ',');
  }

  /** A single-segment offer such as "정시(서울과학기술대)" carries its track
      inline: the track label is the whole trimmed entry, parenthetical
      included, there is no department, and the university is a prefix of the
      track label. */
  lemma SingleSegmentFallback(e: string)
    requires ',' !in e && '/' !in e && !IsBlank(e)
    ensures var o := ParseOffer(Some(e));
            && o.trackLabel == Some(Strip(e))
            && o.department == None
            && o.university.value <= o.trackLabel.value
  {
    SingleEntry(e);
    SplitNoSeparator(e, '/');
    EntryUniversity(e);
    EntryTrackLabel(e);
    EntryDepartment(e);
    SplitFirstPiece(e, '(');
    StripPrefix(Split(e, '(')[0], e);
  }

  /** A well-formed three-segment offer "university(campus)/track/department"
      yields each segment trimmed, with the campus parenthetical dropped from
      the university only. */
  lemma ThreeSegments(u: string, t: string, d: string)
    requires ',' !in u && ',' !in t && ',' !in d
    requires '/' !in u && '/' !in t && '/' !in d
    ensures ParseOffer(Some(u + "/" + t + "/" + d))
         == Offer(Some(Strip(Split(u, '(')[0])), Some(Strip(t)), Some(Strip(d)))
  {
    SplitThreeSegments(u, t, d);
    SegmentFields(u + "/" + t + "/" + d, u, t, d);
  }

  /** The parse of a single-offer text whose first three `/`-segments are
      known. */
  lemma SegmentFields(text: string, u: string, t: string, d: string)
    requires !IsBlank(text) && Split(text, ',') == [text]
    requires var segs := Split(text, '/'); |segs| >= 3 && segs[0] == u && segs[1] == t && segs[2] == d
    ensures ParseOffer(Some(text))
         == Offer(Some(Strip(Split(u, '(')[0])), Some(Strip(t)), Some(Strip(d)))
  {
    var o := ParseOffer(Some(text));
    var segs := Split(Split(text, ',')[0], '/');
    assert segs == Split(text, '/');
    OfferFields(text);
    assert o.university == Some(Strip(Split(segs[0], '(')[0]));
    assert o.trackLabel == Some(Strip(segs[1]));
    assert o.department == Some(Strip(segs[2]));
  }

  /** How "u/t/d" splits, for separator-free parts. */
  lemma SplitThreeSegments(u: string, t: string, d: string)
    requires ',' !in u && ',' !in t && ',' !in d
    requires '/' !in u && '/' !in t && '/' !in d
    ensures var text := u + "/" + t + "/" + d;
            !IsBlank(text) && Split(text, ',') == [text] && Split(text, '/') == [u, t, d]
  {
    var text := u + "/" + t + "/" + d;
    assert text == u + ['/'] + (t + ['/'] + d);
    assert text[|u|] == '/';
    assert ',' !in text;
    SplitNoSeparator(text, ',');
    SplitAtFirst(u, '/', t + ['/'] + d);
    SplitAtFirst(t, '/', d);
    SplitNoSeparator(d, '/');
  }

  /** A clean offer "university(campus)/track/department" (the campus
      parenthetical optional), whose parts carry no surrounding whitespace,
      parses back into exactly its parts. */
  lemma CleanOffer(u: string, campus: string, t: string, d: string)
    requires Trimmed(u) && Trimmed(t) && Trimmed(d)
    requires campus == [] || campus[0] == '('
    requires ',' !in u && ',' !in campus && ',' !in t && ',' !in d
    requires '/' !in u && '/' !in campus && '/' !in t && '/' !in d
    requires '(' !in u
    ensures ParseOffer(Some(u + campus + "/" + t + "/" + d))
         == Offer(Some(u), Some(t), Some(d))
  {
    ThreeSegments(u + campus, t, d);
    UniversityBeforeCampus(u, campus);
    StripUnchanged(t);
    StripUnchanged(d);
  }

  /** A trimmed name followed by an optional parenthetical is read back as
      the name. */
  lemma UniversityBeforeCampus(u: string, campus: string)
    requires Trimmed(u) && '(' !in u
    requires campus == [] || campus[0] == '('
    ensures Strip(Split(u + campus, '(')[0]) == u
  {
    if campus == [] {
      assert u + campus == u;
      SplitNoSeparator(u, '(');
      StripUnchanged(u);
    } else {
      var detail := campus[1..];
      assert campus == ['('] + detail;
      assert u + campus == u + ['('] + detail;
      NameBeforeParenthesis(u, detail);
    }
  }

  /** The name before an opening parenthesis is read back as the name. */
  lemma NameBeforeParenthesis(u: string, detail: string)
    requires Trimmed(u) && '(' !in u
    ensures Strip(Split(u + ['('] + detail, '(')[0]) == u
  {
    SplitAtFirst(u, '(', detail);
    assert Split(u + ['('] + detail, '(')[0] == u;
    StripUnchanged(u);
  }

  /** A clean single-segment offer "label(detail)" gives the label as the
      university and the whole text as the track label. */
  lemma CleanSingleSegment(u: string, detail: string)
    requires Trimmed(u) && Trimmed(u + "(" + detail)
    requires ',' !in u && ',' !in detail && '/' !in u && '/' !in detail
    requires '(' !in u
    ensures ParseOffer(Some(u + "(" + detail)) == Offer(Some(u), Some(u + "(" + detail), None)
  {
    var e := u + "(" + detail;
    var o := ParseOffer(Some(e));
    SingleSegmentShape(u, detail);
    assert o.trackLabel == Some(e) && o.department == None by {
      SingleSegmentFallback(e);
      StripUnchanged(e);
    }
    assert o.university == Some(u) by {
      SingleEntry(e);
      EntryUniversity(e);
      SplitNoSeparator(e, '/');
      UniversityBeforeCampus(u, "(" + detail);
    }
  }

  /** The delimiters of "label(detail)". */
  lemma SingleSegmentShape(u: string, detail: string)
    requires ',' !in u && ',' !in detail && '/' !in u && '/' !in detail
    ensures var e := u + "(" + detail;
            e == u + ("(" + detail) && ',' !in e && '/' !in e && !IsBlank(e)
  {
    var e := u + "(" + detail;
    assert e[|u|] == '(';
  }

  /** A summary holding a single offer is parsed as that offer, stripped. */
  lemma SingleEntry(e: string)
    requires ',' !in e && !IsBlank(e)
    ensures ParseOffer(Some(e)) == ParseEntry(Strip(e))
  {
    SplitNoSeparator(e, ',');
  }

  /** The canonical example from the data set. */
  lemma ExampleThreeSegments(text: string)
    requires text == "경운대학교(구미)/학생부교과(일반전형1)/의료서비스경영학과"
    ensures ParseOffer(Some(text))
         == Offer(Some("경운대학교"), Some("학생부교과(일반전형1)"), Some("의료서비스경영학과"))
  {
    var u, campus, t, d := "경운대학교", "(구미)", "학생부교과(일반전형1)", "의료서비스경영학과";
    assert text == u + campus + "/" + t + "/" + d;
    ExampleThreeSegmentsClean(u, campus, t, d);
    CleanOffer(u, campus, t, d);
  }

  /** The parts of the example meet the conditions of `CleanOffer`. */
  lemma ExampleThreeSegmentsClean(u: string, campus: string, t: string, d: string)
    requires u == "경운대학교" && campus == "(구미)"
    requires t == "학생부교과(일반전형1)" && d == "의료서비스경영학과"
    ensures Trimmed(u) && Trimmed(t) && Trimmed(d) && campus[0] == '('
    ensures ',' !in u && ',' !in campus && ',' !in t && ',' !in d
    ensures '/' !in u && '/' !in campus && '/' !in t && '/' !in d
    ensures '(' !in u
  {
  }

  /** A regular-admission offer written without slashes: the university is
      the text before the parenthesis and the track label keeps it. */
  lemma ExampleSingleSegment(text: string)
    requires text == "정시(서울과학기술대)"
    ensures ParseOffer(Some(text)) == Offer(Some("정시"), Some(text), None)
  {
    var u, detail := "정시", "서울과학기술대)";
    assert text == u + "(" + detail;
    CleanSingleSegment(u, detail);
  }

  /** A clean first offer followed by others parses as the first alone. */
  lemma CleanOfferFirst(u: string, campus: string, t: string, d: string, others: string)
    requires Trimmed(u) && Trimmed(t) && Trimmed(d)
    requires campus == [] || campus[0] == '('
    requires ',' !in u && ',' !in campus && ',' !in t && ',' !in d
    requires '/' !in u && '/' !in campus && '/' !in t && '/' !in d
    requires '(' !in u
    ensures ParseOffer(Some(u + campus + "/" + t + "/" + d + "," + others))
         == Offer(Some(u), Some(t), Some(d))
  {
    var first := u + campus + "/" + t + "/" + d;
    assert ',' !in first && !IsBlank(first) by {
      assert first[|u + campus|] == '/';
    }
    FirstOfferOnly(first, others);
    CleanOffer(u, campus, t, d);
  }

  /** With several offers only the first is read; "B대" appears nowhere. */
  lemma ExampleSeveralOffers(text: string)
    requires text == "A대/교과/학과, B대/종합/학과2"
    ensures ParseOffer(Some(text)) == Offer(Some("A대"), Some("교과"), Some("학과"))
  {
    var u, t, d, others := "A대", "교과", "학과", " B대/종합/학과2";
    assert text == u + "" + "/" + t + "/" + d + "," + others;
    CleanOfferFirst(u, "", t, d, others);
  }

  /** A blank first entry before a real one yields empty strings, not `None`. */
  lemma ExampleBlankFirstEntry(text: string)
    requires text == " , B/x/y"
    ensures ParseOffer(Some(text)) == Offer(Some(""), Some(""), None)
  {
    var first, others := " ", " B/x/y";
    assert text == first + "," + others;
    FirstOfferOnly(first, others);
  }
}
