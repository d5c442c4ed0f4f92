/** The element list that `generate_pdf` hands to the document template:
    a title, then one section per bucket in the order Morning, Afternoon,
    Night. Spacers are not modelled; every other flowable is a block. */
module Report {
  import opened Records
  import opened Schedule

  /** A paragraph of the report: the constructor names its style
      (`Title`, `Heading2`, or `Normal` for both entry lines and the
      placeholder), `text` is its markup. */
  datatype Block = Title(text: string) | Heading(text: string) | Line(text: string) | Placeholder(text: string)

  const REPORT_TITLE := "<b>SMART PILL PACK - TODAY'S SCHEDULE</b>"
  const NO_MEDICINES := "No medicines"

  function Bold(s: string): string
  {
    "<b>" + s + "</b>"
  }

  /** The line of one medicine: `- name (dosage)`. */
  function EntryText(m: Medicine): string
  {
    "- " + m.name + " (" + m.dosage + ")"
  }

  /** The entry texts of a bucket, one per medicine, in bucket order. */
  function Entries(meds: seq<Medicine>): (r: seq<string>)
    ensures |r| == |meds|
    ensures forall i :: 0 <= i < |meds| ==> r[i] == EntryText(meds[i])
  {
    if |meds| == 0 then [] else [EntryText(meds[0])] + Entries(meds[1..])
  }

  /** The line blocks of a non-empty bucket, one per medicine, in bucket order. */
  function Lines(meds: seq<Medicine>): (r: seq<Block>)
    ensures |r| == |meds|
    ensures forall i :: 0 <= i < |meds| ==> r[i] == Line(EntryText(meds[i]))
  {
    if |meds| == 0 then [] else [Line(EntryText(meds[0]))] + Lines(meds[1..])
  }

  lemma LinesSnoc(meds: seq<Medicine>, m: Medicine)
    ensures Lines(meds + [m]) == Lines(meds) + [Line(EntryText(m))]
  {
    var l, r := Lines(meds + [m]), Lines(meds) + [Line(EntryText(m))];
    assert |l| == |r|;
    forall i | 0 <= i < |l| ensures l[i] == r[i] {
      assert (meds + [m])[i] == if i < |meds| then meds[i] else m;
    }
  }

  /** What one call of `add_section(title, med_list)` appends. */
  function Section(title: string, meds: seq<Medicine>): seq<Block>
  {
    [Heading(Bold(title))] + (if |meds| == 0 then [Placeholder(NO_MEDICINES)] else Lines(meds))
  }

  /** The whole element list of the PDF for the three buckets. */
  function ScheduleReport(morning: seq<Medicine>, afternoon: seq<Medicine>, night: seq<Medicine>): seq<Block>
  {
    [Title(REPORT_TITLE)] + Section(MORNING, morning) + Section(AFTERNOON, afternoon) + Section(NIGHT, night)
  }

  /** A section is its heading followed either by one line per medicine in
      bucket order, or, for an empty bucket, by the single placeholder. */
  lemma SectionLayout(title: string, meds: seq<Medicine>)
    ensures |Section(title, meds)| >= 2 && Section(title, meds)[0] == Heading(Bold(title))
    ensures |meds| == 0 <==> Section(title, meds) == [Heading(Bold(title)), Placeholder(NO_MEDICINES)]
    ensures |meds| > 0 ==> |Section(title, meds)| == 1 + |meds|
    ensures |meds| > 0 ==> forall i :: 0 <= i < |meds| ==> Section(title, meds)[1 + i] == Line(EntryText(meds[i]))
  {
    if |meds| > 0 {
      assert Section(title, meds)[1] == Line(EntryText(meds[0]));
    }
  }

  /** An empty Night bucket ends the report with its heading and the placeholder. */
  lemma EmptyNightEndsWithPlaceholder(morning: seq<Medicine>, afternoon: seq<Medicine>)
    ensures var r := ScheduleReport(morning, afternoon, []);
      |r| >= 2 && r[|r| - 2..] == [Heading(Bold(NIGHT)), Placeholder(NO_MEDICINES)]
  {
  }

  /** What a reader recovers from a report: the entry texts under each heading. */
  datatype Summary = Summary(morning: seq<string>, afternoon: seq<string>, night: seq<string>)

  /** The texts of the leading run of line blocks, and the blocks after it. */
  function ReadLines(bs: seq<Block>): (seq<string>, seq<Block>)
  {
    if |bs| > 0 && bs[0].Line? then
      var (texts, rest) := ReadLines(bs[1..]);
      ([bs[0].text] + texts, rest)
    else
      ([], bs)
  }

  /** Reads the section headed `title` at the front of `bs`. */
  function ReadSection(bs: seq<Block>, title: string): Option<(seq<string>, seq<Block>)>
  {
    if |bs| >= 2 && bs[0] == Heading(Bold(title)) then
      if bs[1] == Placeholder(NO_MEDICINES) then Some(([], bs[2..]))
      else
        var (texts, rest) := ReadLines(bs[1..]);
        if |texts| > 0 then Some((texts, rest)) else None
    else
      None
  }

  /** Reads a whole report: the title, then the Morning, Afternoon and Night
      sections in that order, and nothing after them. */
  function ReadReport(bs: seq<Block>): Option<Summary>
  {
    if |bs| > 0 && bs[0] == Title(REPORT_TITLE) then
      match ReadSection(bs[1..], MORNING)
      case None => None
      case Some((m, r1)) =>
        match ReadSection(r1, AFTERNOON)
        case None => None
        case Some((a, r2)) =>
          match ReadSection(r2, NIGHT)
          case None => None
          case Some((n, r3)) => if r3 == [] then Some(Summary(m, a, n)) else None
    else
      None
  }

  lemma {:induction false} ReadLinesOfLines(meds: seq<Medicine>, rest: seq<Block>)
    requires rest == [] || !rest[0].Line?
    ensures ReadLines(Lines(meds) + rest) == (Entries(meds), rest)
  {
    if |meds| == 0 {
      assert Lines(meds) + rest == rest;
    } else {
      var bs := Lines(meds) + rest;
      assert bs[0] == Line(EntryText(meds[0]));
      assert bs[1..] == Lines(meds[1..]) + rest;
      ReadLinesOfLines(meds[1..], rest);
    }
  }

  lemma ReadSectionOfSection(title: string, meds: seq<Medicine>, rest: seq<Block>)
    requires rest == [] || rest[0].Heading?
    ensures ReadSection(Section(title, meds) + rest, title) == Some((Entries(meds), rest))
  {
    var bs := Section(title, meds) + rest;
    if |meds| == 0 {
      assert bs[2..] == rest;
    } else {
      assert bs[1..] == Lines(meds) + rest;
      assert bs[1] == Line(EntryText(meds[0]));
      ReadLinesOfLines(meds, rest);
    }
  }

  /** The report can be read back: its headings come in the order Morning,
      Afternoon, Night, and under each stand exactly the entries of that
      bucket, in bucket order. */
  lemma ReportRoundTrip(morning: seq<Medicine>, afternoon: seq<Medicine>, night: seq<Medicine>)
    ensures ReadReport(ScheduleReport(morning, afternoon, night))
         == Some(Summary(Entries(morning), Entries(afternoon), Entries(night)))
  {
    var sm, sa, sn := Section(MORNING, morning), Section(AFTERNOON, afternoon), Section(NIGHT, night);
    ReadSectionOfSection(MORNING, morning, sa + sn);
    ReadSectionOfSection(AFTERNOON, afternoon, sn);
    ReadSectionOfSection(NIGHT, night, []);
    assert sn + [] == sn;
    ReadReportOfSections(sm, sa, sn, Entries(morning), Entries(afternoon), Entries(night));
  }

  lemma ReadReportOfSections(sm: seq<Block>, sa: seq<Block>, sn: seq<Block>, m: seq<string>, a: seq<string>, n: seq<string>)
    requires ReadSection(sm + (sa + sn), MORNING) == Some((m, sa + sn))
    requires ReadSection(sa + sn, AFTERNOON) == Some((a, sn))
    requires ReadSection(sn, NIGHT) == Some((n, []))
    ensures ReadReport([Title(REPORT_TITLE)] + sm + sa + sn) == Some(Summary(m, a, n))
  {
    var bs := [Title(REPORT_TITLE)] + sm + sa + sn;
    assert bs[1..] == sm + (sa + sn);
    ReadReportSteps(bs, m, sa + sn, a, sn, n);
  }

  lemma ReadReportSteps(bs: seq<Block>, m: seq<string>, r1: seq<Block>, a: seq<string>, r2: seq<Block>, n: seq<string>)
    requires |bs| > 0 && bs[0] == Title(REPORT_TITLE)
    requires ReadSection(bs[1..], MORNING) == Some((m, r1))
    requires ReadSection(r1, AFTERNOON) == Some((a, r2))
    requires ReadSection(r2, NIGHT) == Some((n, []))
    ensures ReadReport(bs) == Some(Summary(m, a, n))
  {
  }

  /** The `elements` list of `generate_pdf`, to which `add_section` appends. */
  class PdfDocument {
    var elements: seq<Block>

    constructor ()
      ensures elements == []
    {
      elements := [];
    }

    method Append(b: Block)
      modifies this
      ensures elements == old(elements) + [b]
    {
      elements := elements + [b];
    }

    /** `add_section(title, med_list)`. */
    method AddSection(title: string, medList: seq<Medicine>)
      modifies this
      ensures elements == old(elements) + Section(title, medList)
    {
      Append(Heading(Bold(title)));
      if |medList| > 0 {
        for i := 0 to |medList|
          invariant elements == old(elements) + [Heading(Bold(title))] + Lines(medList[..i])
        {
          Append(Line(EntryText(medList[i])));
          assert medList[..i + 1] == medList[..i] + [medList[i]];
          LinesSnoc(medList[..i], medList[i]);
        }
        assert medList[..|medList|] == medList;
      } else {
        Append(Placeholder(NO_MEDICINES));
      }
    }
  }
}
