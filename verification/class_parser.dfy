/**
 * `parse_class_input`: free text read as repeated three-line records
 * (status, subject, a duration line such as `45min`), resynchronising one
 * line at a time past lines that do not complete a record.
 */
module ClassParser {
  import opened Wrappers
  import opened Text
  import opened Items

  /** The unit marker the duration line must contain. */
  const Unit: string := "min"

  /** One candidate record: `None` when the duration line lacks the marker or its rest is not an integer. */
  function ParseRecord(statusLine: string, subjectLine: string, durationLine: string): Option<Item>
  {
    var d := Strip(durationLine);
    if Contains(d, Unit) then
      match ParseInt(RemoveAll(d, Unit))
      case Some(n) => Some(Item(Strip(statusLine), Strip(subjectLine), n))
      case None => None
    else None
  }

  /** The records read from `lines`, each taking three lines; at most a third as many records as lines. */
  function ParseLines(lines: seq<string>): (items: seq<Item>)
    ensures 3 * |items| <= |lines|
  {
    if |lines| < 3 then []
    else
      match ParseRecord(lines[0], lines[1], lines[2])
      case Some(it) => [it] + ParseLines(lines[3..])
      case None => ParseLines(lines[1..])
  }

  /** What `parse_class_input(text)` returns. */
  function ParseText(text: string): seq<Item>
  {
    ParseLines(Split(text, '\n'))
  }

  /**
   * `starts` are where the records of `items` begin in `lines` when each
   * line triple is read by `read`: in order, three lines each, no overlap.
   */
  predicate RecordsAt(read: (string, string, string) -> Option<Item>, lines: seq<string>, starts: seq<int>, items: seq<Item>)
  {
    && |starts| == |items|
    && (forall j :: 0 <= j < |starts| ==>
          0 <= starts[j] && starts[j] + 3 <= |lines|
          && read(lines[starts[j]], lines[starts[j] + 1], lines[starts[j] + 2]) == Some(items[j]))
    && (forall j :: 0 <= j < |starts| - 1 ==> starts[j] + 3 <= starts[j + 1])
  }

  function Shift(xs: seq<int>, k: int): (r: seq<int>)
    ensures |r| == |xs| && forall j :: 0 <= j < |xs| ==> r[j] == xs[j] + k
  {
    seq(|xs|, j requires 0 <= j < |xs| => xs[j] + k)
  }

  /** The first line of every record the parser returns. */
  function RecordStarts(lines: seq<string>): seq<int>
  {
    if |lines| < 3 then []
    else if ParseRecord(lines[0], lines[1], lines[2]).Some? then [0] + Shift(RecordStarts(lines[3..]), 3)
    else Shift(RecordStarts(lines[1..]), 1)
  }

  /** A well-formed record in front of `lines[3..]` adds one record starting at line 0. */
  lemma RecordsAtCons(read: (string, string, string) -> Option<Item>, lines: seq<string>, starts: seq<int>, items: seq<Item>, it: Item)
    requires |lines| >= 3 && read(lines[0], lines[1], lines[2]) == Some(it)
    requires RecordsAt(read, lines[3..], starts, items)
    ensures RecordsAt(read, lines, [0] + Shift(starts, 3), [it] + items)
  {
    var rest := lines[3..];
    var starts' := [0] + Shift(starts, 3);
    var items' := [it] + items;
    forall j | 1 <= j < |starts'|
      ensures 0 <= starts'[j] && starts'[j] + 3 <= |lines|
      ensures read(lines[starts'[j]], lines[starts'[j] + 1], lines[starts'[j] + 2]) == Some(items'[j])
    {
      var t := starts[j - 1];
      assert starts'[j] == t + 3 && items'[j] == items[j - 1];
      assert rest[t] == lines[t + 3] && rest[t + 1] == lines[t + 4] && rest[t + 2] == lines[t + 5];
    }
  }

  /** A skipped line shifts every record start by one. */
  lemma RecordsAtSkip(read: (string, string, string) -> Option<Item>, lines: seq<string>, starts: seq<int>, items: seq<Item>)
    requires |lines| >= 1 && RecordsAt(read, lines[1..], starts, items)
    ensures RecordsAt(read, lines, Shift(starts, 1), items)
  {
    var rest := lines[1..];
    var starts' := Shift(starts, 1);
    forall j | 0 <= j < |starts'|
      ensures 0 <= starts'[j] && starts'[j] + 3 <= |lines|
      ensures read(lines[starts'[j]], lines[starts'[j] + 1], lines[starts'[j] + 2]) == Some(items[j])
    {
      var t := starts[j];
      assert rest[t] == lines[t + 1] && rest[t + 1] == lines[t + 2] && rest[t + 2] == lines[t + 3];
    }
  }

  /** The records come from non-overlapping line triples, in input order. */
  lemma {:induction false} RecordStartsSpec(lines: seq<string>)
    ensures RecordsAt(ParseRecord, lines, RecordStarts(lines), ParseLines(lines))
  {
    if |lines| >= 3 {
      var r := ParseRecord(lines[0], lines[1], lines[2]);
      if r.Some? {
        RecordStartsSpec(lines[3..]);
        assert RecordStarts(lines) == [0] + Shift(RecordStarts(lines[3..]), 3);
        assert ParseLines(lines) == [r.value] + ParseLines(lines[3..]);
        RecordsAtCons(ParseRecord, lines, RecordStarts(lines[3..]), ParseLines(lines[3..]), r.value);
      } else {
        RecordStartsSpec(lines[1..]);
        assert RecordStarts(lines) == Shift(RecordStarts(lines[1..]), 1);
        assert ParseLines(lines) == ParseLines(lines[1..]);
        RecordsAtSkip(ParseRecord, lines, RecordStarts(lines[1..]), ParseLines(lines[1..]));
      }
    }
  }

  /** Every item is read from the stripped lines of one well-formed record, in the order of the input. */
  lemma ItemsComeFromRecords(lines: seq<string>, j: int)
    requires 0 <= j < |ParseLines(lines)|
    ensures |RecordStarts(lines)| == |ParseLines(lines)|
    ensures j + 1 < |ParseLines(lines)| ==> RecordStarts(lines)[j] + 3 <= RecordStarts(lines)[j + 1]
    ensures var i := RecordStarts(lines)[j];
      && 0 <= i && i + 2 < |lines|
      && ParseLines(lines)[j].status == Strip(lines[i])
      && ParseLines(lines)[j].subject == Strip(lines[i + 1])
      && Contains(Strip(lines[i + 2]), Unit)
      && ParseInt(RemoveAll(Strip(lines[i + 2]), Unit)) == Some(ParseLines(lines)[j].duration)
  {
    RecordStartsSpec(lines);
    var i := RecordStarts(lines)[j];
    ParseRecordSome(lines[i], lines[i + 1], lines[i + 2], ParseLines(lines)[j]);
  }

  /** What a successful read of one record says about its three lines. */
  lemma ParseRecordSome(statusLine: string, subjectLine: string, durationLine: string, it: Item)
    requires ParseRecord(statusLine, subjectLine, durationLine) == Some(it)
    ensures it.status == Strip(statusLine) && it.subject == Strip(subjectLine)
    ensures Contains(Strip(durationLine), Unit) && ParseInt(RemoveAll(Strip(durationLine), Unit)) == Some(it.duration)
  {
  }

  /** A first record whose duration line is malformed costs one line, not three. */
  lemma SkipsOneLine(lines: seq<string>)
    requires |lines| >= 3 && ParseRecord(lines[0], lines[1], lines[2]).None?
    ensures ParseLines(lines) == ParseLines(lines[1..])
  {
  }

  /** Fewer than three lines never make a record. */
  lemma TrailingLinesIgnored(lines: seq<string>)
    requires |lines| < 3
    ensures ParseLines(lines) == []
  {
  }

  /** An item no line of which carries surrounding whitespace. */
  predicate Clean(it: Item)
  {
    Strip(it.status) == it.status && Strip(it.subject) == it.subject
  }

  /** The three lines of a record for `it`, with its duration written as `<n>min`. */
  function RenderLines(items: seq<Item>): (lines: seq<string>)
    ensures |lines| == 3 * |items|
  {
    if items == [] then []
    else [items[0].status, items[0].subject, ShowInt(items[0].duration) + Unit] + RenderLines(items[1..])
  }

  /** A rendered record is well formed and reads back as the item. */
  lemma ParseRecordRendered(it: Item)
    requires Clean(it)
    ensures ParseRecord(it.status, it.subject, ShowInt(it.duration) + Unit) == Some(it)
  {
    var line := ShowInt(it.duration) + Unit;
    TrimUnchanged(line, IsSpace);
    ContainsSuffix(ShowInt(it.duration), Unit);
    RemoveAllSuffix(ShowInt(it.duration), Unit);
    ParseIntShowInt(it.duration);
  }

  /** Parsing rendered records gives the items back. */
  lemma {:induction false} ParseRenderLines(items: seq<Item>)
    requires forall i :: 0 <= i < |items| ==> Clean(items[i])
    ensures ParseLines(RenderLines(items)) == items
  {
    if items != [] {
      var lines := RenderLines(items);
      ParseRecordRendered(items[0]);
      assert lines[3..] == RenderLines(items[1..]);
      ParseRenderLines(items[1..]);
    }
  }

  /** The whole-text round trip: records joined by newlines parse back to the items. */
  lemma ParseTextRoundTrip(items: seq<Item>)
    requires forall i :: 0 <= i < |items| ==> Clean(items[i])
    requires forall i :: 0 <= i < |items| ==> '\n' !in items[i].status && '\n' !in items[i].subject
    ensures ParseText(Join(RenderLines(items), '\n')) == items
  {
    var lines := RenderLines(items);
    if items == [] {
      assert Split([], '\n') == [[]];
    } else {
      forall i | 0 <= i < |lines| ensures '\n' !in lines[i] {
        RenderedLine(items, i);
      }
      SplitJoin(lines, '\n');
      ParseRenderLines(items);
    }
  }

  lemma {:induction false} RenderedLine(items: seq<Item>, i: int)
    requires forall k :: 0 <= k < |items| ==> '\n' !in items[k].status && '\n' !in items[k].subject
    requires 0 <= i < 3 * |items|
    ensures '\n' !in RenderLines(items)[i]
  {
    var lines := RenderLines(items);
    var head := [items[0].status, items[0].subject, ShowInt(items[0].duration) + Unit];
    var tail := RenderLines(items[1..]);
    assert lines == head + tail;
    if i >= 3 {
      assert lines[i] == tail[i - 3];
      RenderedLine(items[1..], i - 3);
    } else {
      assert lines[i] == head[i];
      if i == 2 {
        DurationLineNoNewline(items[0].duration);
      }
    }
  }

  lemma DurationLineNoNewline(n: int)
    ensures '\n' !in ShowInt(n) + Unit
  {
    var s := ShowInt(n) + Unit;
    forall k | 0 <= k < |s| ensures s[k] != '\n' {
      if k < |ShowInt(n)| {
        ShowIntNoNewline(n, k);
      }
    }
  }

  lemma ShowIntNoNewline(n: int, k: int)
    requires 0 <= k < |ShowInt(n)|
    ensures ShowInt(n)[k] != '\n'
  {
    if n >= 0 {
      assert IsDigit(ShowNat(n)[k]);
    } else if k > 0 {
      assert ShowInt(n)[k] == ShowNat(-n)[k - 1];
      assert IsDigit(ShowNat(-n)[k - 1]);
    }
  }

  /** A rendered record in front of any lines is read first, and the rest is read on its own. */
  lemma RenderedFirst(x: Item, rest: seq<string>)
    requires Clean(x)
    ensures ParseLines(RenderLines([x]) + rest) == [x] + ParseLines(rest)
  {
    var lines := RenderLines([x]) + rest;
    assert RenderLines([x]) == [x.status, x.subject, ShowInt(x.duration) + Unit];
    assert lines[0] == x.status && lines[1] == x.subject && lines[2] == ShowInt(x.duration) + Unit;
    assert lines[3..] == rest;
    ParseRecordRendered(x);
  }

  /** A noise line in front of a record whose subject has no unit marker is dropped. */
  lemma NoiseBeforeRecord(noise: string, y: Item)
    requires Clean(y) && !Contains(y.subject, Unit)
    ensures ParseLines([noise] + RenderLines([y])) == [y]
  {
    var lines := [noise] + RenderLines([y]);
    assert RenderLines([y]) == [y.status, y.subject, ShowInt(y.duration) + Unit];
    assert lines[0] == noise && lines[1] == y.status && lines[2] == y.subject;
    assert ParseRecord(noise, y.status, y.subject) == None;
    assert lines[1..] == RenderLines([y]) + [];
    RenderedFirst(y, []);
    assert [y] + [] == [y];
  }

  /**
   * Noise between two records is skipped without losing the second record,
   * provided the second record's subject does not itself look like a duration line.
   */
  lemma NoiseLineSkipped(x: Item, noise: string, y: Item)
    requires Clean(x) && Clean(y) && !Contains(y.subject, Unit)
    ensures ParseLines(RenderLines([x]) + [noise] + RenderLines([y])) == [x, y]
  {
    assert RenderLines([x]) + [noise] + RenderLines([y]) == RenderLines([x]) + ([noise] + RenderLines([y]));
    RenderedFirst(x, [noise] + RenderLines([y]));
    NoiseBeforeRecord(noise, y);
  }

  /** How the records from line `i` on are read: none in the last two lines, else one record or a one-line skip. */
  lemma ParseLinesAt(lines: seq<string>, i: int)
    requires 0 <= i <= |lines|
    ensures i + 2 >= |lines| ==> ParseLines(lines[i..]) == []
    ensures i + 2 < |lines| && ParseRecord(lines[i], lines[i + 1], lines[i + 2]).Some? ==>
      ParseLines(lines[i..]) == [ParseRecord(lines[i], lines[i + 1], lines[i + 2]).value] + ParseLines(lines[i + 3..])
    ensures i + 2 < |lines| && ParseRecord(lines[i], lines[i + 1], lines[i + 2]).None? ==>
      ParseLines(lines[i..]) == ParseLines(lines[i + 1..])
  {
    if i + 2 < |lines| {
      assert lines[i..][3..] == lines[i + 3..] && lines[i..][1..] == lines[i + 1..];
      assert lines[i..][0] == lines[i] && lines[i..][1] == lines[i + 1] && lines[i..][2] == lines[i + 2];
    }
  }

  /** After a well-formed record at line `i` the scan goes on at line `i + 3` with the record appended. */
  lemma RecordStep(lines: seq<string>, i: int, classes: seq<Item>, it: Item)
    requires 0 <= i && i + 2 < |lines| && ParseRecord(lines[i], lines[i + 1], lines[i + 2]) == Some(it)
    requires classes + ParseLines(lines[i..]) == ParseLines(lines)
    ensures (classes + [it]) + ParseLines(lines[i + 3..]) == ParseLines(lines)
  {
    var rest := ParseLines(lines[i + 3..]);
    ParseLinesAt(lines, i);
    assert ParseLines(lines[i..]) == [it] + rest;
    assert (classes + [it]) + rest == classes + ([it] + rest);
  }

  /** After a malformed record at line `i` the scan goes on at line `i + 1`. */
  lemma NoRecordStep(lines: seq<string>, i: int, classes: seq<Item>)
    requires 0 <= i && i + 2 < |lines| && ParseRecord(lines[i], lines[i + 1], lines[i + 2]) == None
    requires classes + ParseLines(lines[i..]) == ParseLines(lines)
    ensures classes + ParseLines(lines[i + 1..]) == ParseLines(lines)
  {
    ParseLinesAt(lines, i);
  }

  /** `parse_class_input`: the imperative scan with the cursor `i`. */
  method ParseClassInput(classInput: string) returns (classes: seq<Item>)
    ensures classes == ParseText(classInput)
    ensures 3 * |classes| <= |Split(classInput, '\n')|
  {
    var lines := Split(classInput, '\n');
    classes := [];
    var i := 0;
    while i < |lines|
      invariant 0 <= i <= |lines|
      invariant classes + ParseLines(lines[i..]) == ParseLines(lines)
      decreases |lines| - i
    {
      var status := Strip(lines[i]);
      if i + 2 < |lines| {
        var subject := Strip(lines[i + 1]);
        var durationLine := Strip(lines[i + 2]);
        if Contains(durationLine, Unit) {
          var durationStr := RemoveAll(durationLine, Unit);
          match ParseInt(durationStr)
          case Some(duration) =>
            RecordStep(lines, i, classes, Item(status, subject, duration));
            classes := classes + [Item(status, subject, duration)];
            i := i + 3;
          case None =>
            NoRecordStep(lines, i, classes);
            i := i + 1;
        } else {
          NoRecordStep(lines, i, classes);
          i := i + 1;
        }
      } else {
        ParseLinesAt(lines, i);
        assert classes + [] == classes;
        break;
      }
    }
  }
}
