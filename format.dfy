/** `format_stats_text`: a statistics record as text, a title line and then
    one `key: value` line per entry. The two-decimal rendering of a float
    (`f"{value:.2f}"`) is the parameter `fmt2`. */
module Format {
  import opened Records

  /** `str(value)` for the values that are not floats. */
  function Str(v: Value): string
    requires !v.Real?
  {
    match v
    case Int(i) => IntToString(i)
    case Text(s) => s
  }

  /** How a value is written: floats with two decimals, the rest with `str`. */
  function Render(v: Value, fmt2: real -> string): string
  {
    if v.Real? then fmt2(v.r) else Str(v)
  }

  /** The line written for one entry. */
  function Line(entry: (Key, Value), fmt2: real -> string): string
  {
    KeyName(entry.0) + ": " + Render(entry.1, fmt2) + "\n"
  }

  /** The lines for a record's entries, in its order. */
  function Lines(stats: Stats, fmt2: real -> string): string
  {
    if stats == [] then "" else Line(stats[0], fmt2) + Lines(stats[1..], fmt2)
  }

  /** `format_stats_text(title, stats_dict)`. */
  method FormatStatsText(title: string, stats: Stats, fmt2: real -> string) returns (text: string)
    ensures text == title + ":\n" + Lines(stats, fmt2)
  {
    text := title + ":\n";
    for i := 0 to |stats|
      invariant text == title + ":\n" + Lines(stats[..i], fmt2)
    {
      var (key, value) := stats[i];
      var line: string;
      if value.Real? {
        line := KeyName(key) + ": " + fmt2(value.r) + "\n";
      } else {
        line := KeyName(key) + ": " + Str(value) + "\n";
      }
      assert line == Line(stats[i], fmt2);
      LinesSnoc(stats, i, fmt2);
      AppendAssoc(title + ":\n", Lines(stats[..i], fmt2), line);
      text := text + line;
    }
    assert stats[..|stats|] == stats;
  }

  lemma AppendAssoc(a: string, b: string, c: string)
    ensures (a + b) + c == a + (b + c)
  {
  }

  /** The lines of the first `i + 1` entries extend those of the first `i`. */
  lemma LinesSnoc(stats: Stats, i: nat, fmt2: real -> string)
    requires i < |stats|
    ensures Lines(stats[..i + 1], fmt2) == Lines(stats[..i], fmt2) + Line(stats[i], fmt2)
  {
    assert stats[..i + 1] == stats[..i] + [stats[i]];
    LinesConcat(stats[..i], [stats[i]], fmt2);
    assert [stats[i]][1..] == [];
  }

  // ---------------------------------------------------------------------
  // Properties of the text

  /** The lines of two records one after the other are the lines of the
      first, then those of the second. */
  lemma {:induction false} LinesConcat(a: Stats, b: Stats, fmt2: real -> string)
    ensures Lines(a + b, fmt2) == Lines(a, fmt2) + Lines(b, fmt2)
  {
    if a == [] {
      assert a + b == b;
    } else {
      assert (a + b)[1..] == a[1..] + b;
      LinesConcat(a[1..], b, fmt2);
    }
  }

  /** Entry `n`'s line follows the title line and the lines of the entries
      before it: one line per entry, in the record's order. */
  lemma LineOfEntry(title: string, stats: Stats, fmt2: real -> string, n: nat)
    requires n < |stats|
    ensures var text := title + ":\n" + Lines(stats, fmt2);
      var start := |title| + 2 + |Lines(stats[..n], fmt2)|;
      start + |Line(stats[n], fmt2)| <= |text| &&
      text[start..start + |Line(stats[n], fmt2)|] == Line(stats[n], fmt2)
  {
    LinesSplit(stats, n, fmt2);
    TextAt(title, Lines(stats[..n], fmt2), Line(stats[n], fmt2), Lines(stats[n + 1..], fmt2));
  }

  /** The lines of a record around entry `n`: those before it, its own, and
      those after it. */
  lemma LinesSplit(stats: Stats, n: nat, fmt2: real -> string)
    requires n < |stats|
    ensures Lines(stats, fmt2) ==
      (Lines(stats[..n], fmt2) + Line(stats[n], fmt2)) + Lines(stats[n + 1..], fmt2)
  {
    assert stats[..n + 1] + stats[n + 1..] == stats;
    LinesConcat(stats[..n + 1], stats[n + 1..], fmt2);
    LinesSnoc(stats, n, fmt2);
  }

  /** Where the middle part of a four-part text sits. */
  lemma TextAt(title: string, before: string, line: string, after: string)
    ensures var text := title + ":\n" + ((before + line) + after);
      |title| + 2 + |before| + |line| <= |text| &&
      text[|title| + 2 + |before|..|title| + 2 + |before| + |line|] == line
  {
    var text := title + ":\n" + ((before + line) + after);
    assert forall k :: 0 <= k < |line| ==> text[|title| + 2 + |before| + k] == line[k];
  }

  /** Number of line breaks in a string. */
  function Newlines(s: string): nat
  {
    if s == [] then 0 else (if s[0] == '\n' then 1 else 0) + Newlines(s[1..])
  }

  lemma {:induction false} NewlinesConcat(a: string, b: string)
    ensures Newlines(a + b) == Newlines(a) + Newlines(b)
  {
    if a == [] {
      assert a + b == b;
    } else {
      assert (a + b)[1..] == a[1..] + b;
      NewlinesConcat(a[1..], b);
    }
  }

  lemma {:induction false} NoNewlines(s: string)
    requires '\n' !in s
    ensures Newlines(s) == 0
  {
    if s != [] {
      assert '\n' !in s[1..] by {
        assert forall k :: 0 <= k < |s| - 1 ==> s[1..][k] == s[k + 1];
      }
      NoNewlines(s[1..]);
    }
  }

  /** No key name holds a line break. */
  lemma KeyNameNoNewline(k: Key)
    ensures '\n' !in KeyName(k)
  {
  }

  /** Texts in the record and the float rendering hold no line break. */
  ghost predicate SingleLineValues(stats: Stats, fmt2: real -> string)
  {
    (forall x: real :: '\n' !in fmt2(x)) &&
    forall n :: 0 <= n < |stats| && stats[n].1.Text? ==> '\n' !in stats[n].1.s
  }

  /** One line per entry: a single-line title and single-line values give a
      text with exactly one line break more than the record has entries. */
  lemma {:induction false} LinesNewlines(stats: Stats, fmt2: real -> string)
    requires SingleLineValues(stats, fmt2)
    ensures Newlines(Lines(stats, fmt2)) == |stats|
  {
    if stats != [] {
      var (key, value) := stats[0];
      assert SingleLineValues(stats[1..], fmt2) by {
        assert forall m :: 0 <= m < |stats| - 1 ==> stats[1..][m] == stats[m + 1];
      }
      LinesNewlines(stats[1..], fmt2);
      LineNewlines(stats[0], fmt2);
      NewlinesConcat(Line(stats[0], fmt2), Lines(stats[1..], fmt2));
    }
  }

  /** A line of a single-line value holds exactly one line break. */
  lemma LineNewlines(entry: (Key, Value), fmt2: real -> string)
    requires forall x: real :: '\n' !in fmt2(x)
    requires entry.1.Text? ==> '\n' !in entry.1.s
    ensures Newlines(Line(entry, fmt2)) == 1
  {
    var (key, value) := entry;
    KeyNameNoNewline(key);
    var rendered := Render(value, fmt2);
    assert '\n' !in rendered by {
      if value.Int? {
        IntToStringNoNewline(value.i);
      }
    }
    NoNewlines(KeyName(key));
    NoNewlines(": ");
    NoNewlines(rendered);
    NewlinesConcat(KeyName(key), ": ");
    NewlinesConcat(KeyName(key) + ": ", rendered);
    NewlinesConcat(KeyName(key) + ": " + rendered, "\n");
    assert Newlines("\n") == 1 by {
      assert "\n"[1..] == [];
    }
  }

  /** The formatted text has `|stats| + 1` line breaks. */
  lemma FormatNewlines(title: string, stats: Stats, fmt2: real -> string)
    requires '\n' !in title && SingleLineValues(stats, fmt2)
    ensures Newlines(title + ":\n" + Lines(stats, fmt2)) == |stats| + 1
  {
    LinesNewlines(stats, fmt2);
    NoNewlines(title);
    NoNewlines(":");
    NewlinesConcat(title, ":\n");
    NewlinesConcat(":", "\n");
    assert Newlines("\n") == 1 by {
      assert "\n"[1..] == [];
    }
    NewlinesConcat(title + ":\n", Lines(stats, fmt2));
  }

  /** An integer value is written as Python's str() writes it: its decimal
      digits, which read back as its magnitude and start with '0' only for
      zero, preceded by '-' when it is negative. */
  lemma RenderInt(i: int, fmt2: real -> string)
    ensures var s := Render(Int(i), fmt2);
      var digits := if i < 0 then s[1..] else s;
      (i < 0 ==> |s| > 1 && s[0] == '-') &&
      |digits| > 0 && (forall k :: 0 <= k < |digits| ==> '0' <= digits[k] <= '9') &&
      DecimalValue(digits) == (if i < 0 then -i else i) && (digits[0] == '0' <==> i == 0)
  {
    NatToStringDecimal(if i < 0 then -i else i);
    if i < 0 {
      var s := Render(Int(i), fmt2);
      assert s[1..] == NatToString(-i);
    }
  }
}
