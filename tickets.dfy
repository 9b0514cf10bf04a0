/** Ticket labels and the ticket ledger. A label is the row letter ('a' for
    row 0) followed by the 1-based column number in decimal; the ledger maps a
    reservation id to the labels issued to it, in issue order; a manifest line
    is the id followed by its labels, separated by single spaces. */
module Tickets {
  import opened Grid

  /** The letter that names row `row`. */
  function RowLetter(row: int): (ch: char)
    requires 0 <= row < 26
    ensures 'a' <= ch <= 'z'
  {
    (('a' as int) + row) as char
  }

  predicate IsDigit(ch: char)
  {
    '0' <= ch <= '9'
  }

  function DigitChar(d: int): (ch: char)
    requires 0 <= d < 10
    ensures IsDigit(ch) && ch as int - '0' as int == d
  {
    (('0' as int) + d) as char
  }

  /** The decimal numeral of `n`, most significant digit first, no leading zero. */
  function DecimalString(n: nat): (s: string)
    ensures |s| >= 1 && forall k :: 0 <= k < |s| ==> IsDigit(s[k])
    ensures n >= 1 ==> s[0] != '0'
  {
    if n < 10 then [DigitChar(n)] else DecimalString(n / 10) + [DigitChar(n % 10)]
  }

  /** The number a string of decimal digits denotes. */
  function DecimalValue(s: string): nat
    requires forall k :: 0 <= k < |s| ==> IsDigit(s[k])
  {
    if s == [] then 0
    else
      var d := s[|s| - 1];
      assert IsDigit(d);
      DecimalValue(s[..|s| - 1]) * 10 + (d as int - '0' as int)
  }

  /** Reading a numeral back gives the number it was written from. */
  lemma {:induction false} DecimalRoundTrip(n: nat)
    ensures DecimalValue(DecimalString(n)) == n
  {
    if n >= 10 {
      var s := DecimalString(n);
      assert s[..|s| - 1] == DecimalString(n / 10);
      DecimalRoundTrip(n / 10);
    }
  }

  /** Seats that have a label: a row with a letter and a non-negative column. */
  predicate Labelable(seats: seq<Seat>)
  {
    forall k :: 0 <= k < |seats| ==> 0 <= seats[k].row < 26 && 0 <= seats[k].col
  }

  /** The ticket label of the cell at (row, col). */
  function Label(row: int, col: int): string
    requires 0 <= row < 26 && 0 <= col
  {
    [RowLetter(row)] + DecimalString(col + 1)
  }

  /** The cell a label names, if the string is a label. */
  function ParseLabel(s: string): Option<Seat>
  {
    if 2 <= |s| && 'a' <= s[0] <= 'z' &&
       (forall k :: 1 <= k < |s| ==> IsDigit(s[k])) && DecimalValue(s[1..]) >= 1
    then Some(Seat(s[0] as int - 'a' as int, DecimalValue(s[1..]) - 1))
    else None
  }

  datatype Option<T> = None | Some(value: T)

  /** A label names the cell it was made from. */
  lemma {:induction false} LabelRoundTrip(row: int, col: int)
    requires 0 <= row < 26 && 0 <= col
    ensures ParseLabel(Label(row, col)) == Some(Seat(row, col))
  {
    var s := Label(row, col);
    assert s[1..] == DecimalString(col + 1);
    DecimalRoundTrip(col + 1);
  }

  /** Different cells get different labels. */
  lemma {:induction false} LabelInjective(r1: int, c1: int, r2: int, c2: int)
    requires 0 <= r1 < 26 && 0 <= c1 && 0 <= r2 < 26 && 0 <= c2
    requires Label(r1, c1) == Label(r2, c2)
    ensures r1 == r2 && c1 == c2
  {
    LabelRoundTrip(r1, c1);
    LabelRoundTrip(r2, c2);
  }

  /** The labels of `seats`, in the same order. */
  function Labels(seats: seq<Seat>): (ls: seq<string>)
    requires Labelable(seats)
    ensures |ls| == |seats|
  {
    if seats == [] then []
    else
      var s := seats[|seats| - 1];
      Labels(seats[..|seats| - 1]) + [Label(s.row, s.col)]
  }

  /** The k-th label is the label of the k-th seat. */
  lemma {:induction false} LabelsAt(seats: seq<Seat>, k: int)
    requires Labelable(seats) && 0 <= k < |seats|
    ensures Labels(seats)[k] == Label(seats[k].row, seats[k].col)
  {
    if k < |seats| - 1 {
      LabelsAt(seats[..|seats| - 1], k);
    }
  }

  /** The labels of cells `from .. from+n-1` of `row`, left to right. */
  function RunLabels(row: int, from: int, n: nat): (ls: seq<string>)
    requires 0 <= row < 26 && 0 <= from
    ensures |ls| == n
  {
    if n == 0 then [] else RunLabels(row, from, n - 1) + [Label(row, from + n - 1)]
  }

  /** Distinct seats get distinct labels: no label is issued twice. */
  lemma {:induction false} LabelsDistinct(seats: seq<Seat>)
    requires Labelable(seats) && Distinct(seats)
    ensures forall a, b :: 0 <= a < b < |seats| ==> Labels(seats)[a] != Labels(seats)[b]
  {
    forall a, b | 0 <= a < b < |seats|
      ensures Labels(seats)[a] != Labels(seats)[b]
    {
      LabelsAt(seats, a);
      LabelsAt(seats, b);
      if Labels(seats)[a] == Labels(seats)[b] {
        LabelInjective(seats[a].row, seats[a].col, seats[b].row, seats[b].col);
      }
    }
  }

  /** The labels of `a + b` are those of `a` followed by those of `b`. */
  lemma {:induction false} LabelsAppend(a: seq<Seat>, b: seq<Seat>)
    requires Labelable(a) && Labelable(b)
    ensures Labelable(a + b) && Labels(a + b) == Labels(a) + Labels(b)
  {
    if b == [] {
      assert a + b == a;
    } else {
      var n := |b| - 1;
      assert (a + b)[..|a + b| - 1] == a + b[..n];
      LabelsAppend(a, b[..n]);
    }
  }

  /** The labels issued so far to `id` (none if it has no entry yet). */
  function Issued(ledger: map<string, seq<string>>, id: string): seq<string>
  {
    if id in ledger then ledger[id] else []
  }

  /** The ledger after appending `labels` to the entry of `id`; the entry is
      created only when there is something to append. */
  function Issue(ledger: map<string, seq<string>>, id: string, labels: seq<string>): map<string, seq<string>>
  {
    if labels == [] then ledger else ledger[id := Issued(ledger, id) + labels]
  }

  /** Issuing appends exactly `labels` to the entry of `id`, creates that entry
      only when there is something to append, and touches no other entry. */
  lemma {:induction false} IssueEffect(ledger: map<string, seq<string>>, id: string, labels: seq<string>)
    ensures var r := Issue(ledger, id, labels);
      Issued(r, id) == Issued(ledger, id) + labels &&
      (id in r <==> id in ledger || labels != []) &&
      forall other :: other != id ==> Issued(r, other) == Issued(ledger, other) && (other in r <==> other in ledger)
  {
    if labels == [] {
      assert Issued(ledger, id) + labels == Issued(ledger, id);
    }
  }

  /** Issuing `a` and then `b` is issuing `a + b`. */
  lemma {:induction false} IssueConcat(ledger: map<string, seq<string>>, id: string, a: seq<string>, b: seq<string>)
    ensures Issue(Issue(ledger, id, a), id, b) == Issue(ledger, id, a + b)
  {
    if b == [] {
      assert a + b == a;
    } else if a == [] {
      assert a + b == b;
    } else {
      var once := Issue(ledger, id, a);
      assert Issued(once, id) + b == Issued(ledger, id) + (a + b);
      assert once[id := Issued(once, id) + b] == ledger[id := Issued(ledger, id) + (a + b)];
    }
  }

  /** Issuing the labels of one more seat appends its label to the entry of `id`. */
  lemma {:induction false} IssueSeat(ledger: map<string, seq<string>>, id: string, seats: seq<Seat>, s: Seat)
    requires Labelable(seats) && 0 <= s.row < 26 && 0 <= s.col
    ensures Labelable(seats + [s])
    ensures var before := Issue(ledger, id, Labels(seats));
      Issue(ledger, id, Labels(seats + [s])) == before[id := Issued(before, id) + [Label(s.row, s.col)]]
  {
    LabelsAppend(seats, [s]);
    assert Labels([s]) == [Label(s.row, s.col)];
    IssueConcat(ledger, id, Labels(seats), [Label(s.row, s.col)]);
  }

  /** One manifest line: the reservation id, then each label after a space. */
  function ManifestLine(id: string, labels: seq<string>): string
  {
    if labels == [] then id
    else ManifestLine(id, labels[..|labels| - 1]) + [' '] + labels[|labels| - 1]
  }

  /** The space-separated fields of a line (a line without spaces is one field). */
  function Fields(s: string): (fs: seq<string>)
    ensures |fs| >= 1
  {
    if s == [] then [""]
    else
      var fs := Fields(s[..|s| - 1]);
      if s[|s| - 1] == ' ' then fs + [""]
      else fs[..|fs| - 1] + [fs[|fs| - 1] + [s[|s| - 1]]]
  }

  /** A field without spaces appended after a space becomes one more field. */
  lemma {:induction false} FieldsAppend(a: string, b: string)
    requires ' ' !in b
    ensures Fields(a + [' '] + b) == Fields(a) + [b]
  {
    if b == [] {
      assert a + [' '] + b == a + [' '];
      assert (a + [' '])[..|a|] == a;
    } else {
      var n := |b| - 1;
      var s := a + [' '] + b;
      assert s[..|s| - 1] == a + [' '] + b[..n];
      FieldsAppend(a, b[..n]);
      assert b[..n] + [b[n]] == b;
    }
  }

  /** A string without spaces is a single field. */
  lemma {:induction false} FieldsNoSpace(s: string)
    requires ' ' !in s
    ensures Fields(s) == [s]
  {
    if s != [] {
      var n := |s| - 1;
      FieldsNoSpace(s[..n]);
      assert s[..n] + [s[n]] == s;
    }
  }

  /** A manifest line splits back into the id and the labels, provided none of
      them contains a space. */
  lemma {:induction false} ManifestLineFields(id: string, labels: seq<string>)
    requires ' ' !in id
    requires forall k :: 0 <= k < |labels| ==> ' ' !in labels[k]
    ensures Fields(ManifestLine(id, labels)) == [id] + labels
  {
    if labels == [] {
      FieldsNoSpace(id);
    } else {
      var n := |labels| - 1;
      ManifestLineFields(id, labels[..n]);
      FieldsAppend(ManifestLine(id, labels[..n]), labels[n]);
      assert labels[..n] + [labels[n]] == labels;
    }
  }

  /** Labels contain no space, so a manifest line of labels splits back. */
  lemma {:induction false} LabelNoSpace(row: int, col: int)
    requires 0 <= row < 26 && 0 <= col
    ensures ' ' !in Label(row, col)
  {
    var s := Label(row, col);
    forall k | 0 <= k < |s| ensures s[k] != ' ' {
      if k > 0 { assert s[k] == DecimalString(col + 1)[k - 1]; }
    }
  }
}
