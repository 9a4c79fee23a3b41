/**
 * `format_keys` of the player-comparison page: each snake_case metric name
 * becomes a label whose underscore-separated words are capitalised and
 * joined by single spaces (`"goals_conceded"` becomes `"Goals Conceded"`).
 */
module MetricLabels {
  import opened Text

  /** `[w.capitalize() for w in words]`. */
  function CapitalizeAll(words: seq<string>): (r: seq<string>)
    ensures |r| == |words|
    ensures forall i :: 0 <= i < |words| ==> r[i] == Capitalize(words[i])
  {
    if words == [] then [] else [Capitalize(words[0])] + CapitalizeAll(words[1..])
  }

  /** `' '.join(word.capitalize() for word in metric.split('_'))`. */
  function FormatKey(metric: string): (caption: string)
    ensures |caption| == |metric|
  {
    FormatAgreesWithScan(metric);
    Join(" ", CapitalizeAll(Split(metric, '_')))
  }

  /** `format_keys(metrics)`: one label per metric, in the same order. */
  function FormatKeys(metrics: seq<string>): (labels: seq<string>)
    ensures |labels| == |metrics|
    ensures forall i :: 0 <= i < |metrics| ==> labels[i] == FormatKey(metrics[i])
  {
    if metrics == [] then [] else [FormatKey(metrics[0])] + FormatKeys(metrics[1..])
  }

  /**
   * Reference definition of a label, independent of split and join: one
   * left-to-right pass that turns each underscore into a space, upper-cases
   * the character that starts a word and lower-cases every other one.
   * `atWordStart` says whether the next character starts a word.
   */
  function LabelScan(m: string, atWordStart: bool): (r: string)
    ensures |r| == |m|
  {
    if m == [] then []
    else if m[0] == '_' then [' '] + LabelScan(m[1..], true)
    else [if atWordStart then ToUpper(m[0]) else ToLower(m[0])] + LabelScan(m[1..], false)
  }

  /** The rule `LabelScan` applies at position `j`. */
  function LabelChar(m: string, j: nat, atWordStart: bool): char
    requires j < |m|
  {
    if m[j] == '_' then ' '
    else if (if j == 0 then atWordStart else m[j - 1] == '_') then ToUpper(m[j])
    else ToLower(m[j])
  }

  lemma {:induction false} LabelScanAt(m: string, atWordStart: bool, j: nat)
    requires j < |m|
    ensures LabelScan(m, atWordStart)[j] == LabelChar(m, j, atWordStart)
  {
    if j > 0 {
      LabelScanAt(m[1..], m[0] == '_', j - 1);
    }
  }

  /**
   * Split-capitalise-join agrees with the scan, both from the start of a
   * word and, when the first word is only lower-cased, from inside one.
   */
  lemma {:induction false} FormatAgreesWithScan(m: string)
    ensures Join(" ", CapitalizeAll(Split(m, '_'))) == LabelScan(m, true)
    ensures var ws := Split(m, '_');
      Join(" ", [LowerAll(ws[0])] + CapitalizeAll(ws[1..])) == LabelScan(m, false)
  {
    if m != [] {
      var t := m[1..];
      var rest := Split(t, '_');
      FormatAgreesWithScan(t);
      if m[0] == '_' {
        assert Split(m, '_') == [""] + rest;
        assert CapitalizeAll([""] + rest) == [""] + CapitalizeAll(rest);
        assert CapitalizeAll(([""] + rest)[1..]) == CapitalizeAll(rest);
      } else {
        var w := [m[0]] + rest[0];
        assert Split(m, '_') == [w] + rest[1..];
        assert CapitalizeAll([w] + rest[1..]) == [Capitalize(w)] + CapitalizeAll(rest[1..]);
        assert Capitalize(w) == [ToUpper(m[0])] + LowerAll(rest[0]);
        assert LowerAll(w) == [ToLower(m[0])] + LowerAll(rest[0]);
        assert ([w] + rest[1..])[1..] == rest[1..];
        assert CapitalizeAll(rest) == [Capitalize(rest[0])] + CapitalizeAll(rest[1..]);
        JoinConsChar(" ", ToUpper(m[0]), LowerAll(rest[0]), CapitalizeAll(rest[1..]));
        JoinConsChar(" ", ToLower(m[0]), LowerAll(rest[0]), CapitalizeAll(rest[1..]));
      }
    }
  }

  /**
   * Every label character follows the scan's rule: an underscore becomes a
   * space, the first character and every character after an underscore is
   * upper-cased, every other character is lower-cased; the label has the
   * metric's length.
   */
  lemma FormatKeyAt(m: string)
    ensures |FormatKey(m)| == |m|
    ensures forall j :: 0 <= j < |m| ==> FormatKey(m)[j] == LabelChar(m, j, true)
  {
    FormatAgreesWithScan(m);
    forall j | 0 <= j < |m| ensures FormatKey(m)[j] == LabelChar(m, j, true) {
      LabelScanAt(m, true, j);
    }
  }

  lemma {:induction false} LabelScanSpaces(m: string, atWordStart: bool)
    ensures Count(LabelScan(m, atWordStart), ' ') == Count(m, ' ') + Count(m, '_')
  {
    if m != [] {
      LabelScanSpaces(m[1..], m[0] == '_');
      var r := LabelScan(m, atWordStart);
      assert r[1..] == LabelScan(m[1..], m[0] == '_');
    }
  }

  /** Each underscore becomes exactly one space and no other space appears. */
  lemma FormatKeySpaces(m: string)
    ensures Count(FormatKey(m), ' ') == Count(m, ' ') + Count(m, '_')
  {
    FormatAgreesWithScan(m);
    LabelScanSpaces(m, true);
  }

  /** A metric without underscores is a single capitalised word. */
  lemma FormatKeySingleWord(m: string)
    requires '_' !in m
    ensures FormatKey(m) == Capitalize(m)
  {
    SplitWithoutSeparator(m, '_');
    assert CapitalizeAll([m]) == [Capitalize(m)];
  }

  /**
   * The label's space-separated words are the metric's underscore-separated
   * words, each capitalised on its own; empty words (from leading, trailing
   * or doubled underscores) stay empty.
   */
  lemma FormatKeyWords(m: string)
    requires ' ' !in m
    ensures Split(FormatKey(m), ' ') == CapitalizeAll(Split(m, '_'))
  {
    var ws := Split(m, '_');
    var caps := CapitalizeAll(ws);
    forall i | 0 <= i < |caps| ensures ' ' !in caps[i] {
      JoinSplit(m, '_');
      PieceInText(ws, i, '_');
      assert forall k :: 0 <= k < |caps[i]| ==> caps[i][k] != ' ';
    }
    SplitJoin(caps, ' ');
  }

  /** Every character of a piece occurs in the joined text. */
  lemma {:induction false} PieceInText(ws: seq<string>, i: nat, sep: char)
    requires i < |ws|
    ensures forall k :: 0 <= k < |ws[i]| ==> ws[i][k] in Join([sep], ws)
  {
    if |ws| > 1 {
      if i > 0 {
        PieceInText(ws[1..], i - 1, sep);
        assert ws[1..][i - 1] == ws[i];
      }
      var j := Join([sep], ws);
      assert j == ws[0] + [sep] + Join([sep], ws[1..]);
      assert forall k :: 0 <= k < |ws[0]| ==> j[k] == ws[0][k];
    }
  }

  /** Lower-case ASCII snake_case: lower-case letters, digits and underscores only. */
  predicate IsLowerSnake(m: string)
  {
    forall k :: 0 <= k < |m| ==> 'a' <= m[k] <= 'z' || '0' <= m[k] <= '9' || m[k] == '_'
  }

  /** `caption.lower().replace(' ', '_')`. */
  function Unlabel(caption: string): string
  {
    ReplaceChar(LowerAll(caption), ' ', '_')
  }

  /** Lower-casing a label and turning its spaces back into underscores recovers the metric. */
  lemma FormatKeyRoundTrip(m: string)
    requires IsLowerSnake(m)
    ensures Unlabel(FormatKey(m)) == m
  {
    FormatKeyAt(m);
    var f := FormatKey(m);
    var u := Unlabel(f);
    forall j | 0 <= j < |m| ensures u[j] == m[j] {
      UnlabelChar(m[j], j == 0 || m[j - 1] == '_');
    }
  }

  /** Undoing the scan's rule on one lower-case snake_case character. */
  lemma UnlabelChar(c: char, up: bool)
    requires 'a' <= c <= 'z' || '0' <= c <= '9' || c == '_'
    ensures var l := if c == '_' then ' ' else if up then ToUpper(c) else ToLower(c);
      (if ToLower(l) == ' ' then '_' else ToLower(l)) == c
  {
  }

  /** A label is fixed by the scan's rule at each of its positions. */
  lemma LabelFromRule(m: string, expected: string)
    requires |expected| == |m|
    requires forall j :: 0 <= j < |m| ==> expected[j] == LabelChar(m, j, true)
    ensures FormatKey(m) == expected
  {
    FormatKeyAt(m);
  }

  /** Doubled underscores leave an empty word between two spaces. */
  lemma DoubledUnderscore()
    ensures FormatKey("a__b") == "A  B"
  {
    LabelFromRule("a__b", "A  B");
  }

  /**
   * The metrics of the player-comparison radar chart get their labels, one
   * per metric and in the same order.
   */
  lemma RadarMetricLabels(metrics: seq<string>, labels: seq<string>)
    requires metrics == ["now_cost", "total_points", "goals_conceded", "creativity", "form"]
    requires labels == ["Now Cost", "Total Points", "Goals Conceded", "Creativity", "Form"]
    ensures FormatKeys(metrics) == labels
  {
    forall i | 0 <= i < 5 ensures FormatKey(metrics[i]) == labels[i] {
      if i == 0 { KeyLabel(metrics[0], labels[0]); }
      else if i == 1 { KeyLabel(metrics[1], labels[1]); }
      else if i == 2 { KeyLabel(metrics[2], labels[2]); }
      else if i == 3 { KeyLabel(metrics[3], labels[3]); }
      else { KeyLabel(metrics[4], labels[4]); }
    }
    LabelsFromKeys(metrics, labels);
  }

  /** The label of each radar metric, checked character by character. */
  lemma KeyLabel(m: string, expected: string)
    requires (m, expected) in {("now_cost", "Now Cost"), ("total_points", "Total Points"),
      ("goals_conceded", "Goals Conceded"), ("creativity", "Creativity"), ("form", "Form")}
    ensures FormatKey(m) == expected
  {
    LabelFromRule(m, expected);
  }

  /** Labels known one by one give the labels of the whole list. */
  lemma {:induction false} LabelsFromKeys(metrics: seq<string>, labels: seq<string>)
    requires |metrics| == |labels|
    requires forall i :: 0 <= i < |metrics| ==> FormatKey(metrics[i]) == labels[i]
    ensures FormatKeys(metrics) == labels
  {
  }
}
