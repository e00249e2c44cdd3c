/** Expanding the ellipses of an argument gives every choice of labels exactly once. */
module Expansion {
  import opened Arith
  import opened DisksLayout

  /** One label chosen in every ellipsis. */
  ghost predicate Choice(pattern: ArgPattern, choice: seq<nat>) {
    |choice| == |pattern| && forall j :: 0 <= j < |pattern| ==> choice[j] < |pattern[j]|
  }

  /** The chosen labels as they stand in the text, where the last of the list comes first. */
  ghost function Labels(pattern: ArgPattern, choice: seq<nat>): (r: seq<string>)
    requires Choice(pattern, choice)
    ensures |r| == |pattern|
  {
    var n := |pattern|;
    seq(n, j requires 0 <= j < n => pattern[n - 1 - j][choice[n - 1 - j]])
  }

  /** The place of a choice: the first of the list turns slowest. */
  ghost function Place(pattern: ArgPattern, choice: seq<nat>): nat
    requires Choice(pattern, choice)
    decreases |pattern|
  {
    if pattern == [] then 0 else choice[0] * Product(pattern[1..]) + Place(pattern[1..], choice[1..])
  }

  ghost function ChoiceAt(pattern: ArgPattern, i: nat): seq<nat>
    requires i < Product(pattern)
    decreases |pattern|
  {
    if pattern == [] then [] else
      var m := Product(pattern[1..]);
      RestIsSome(pattern, i);
      [i / m] + ChoiceAt(pattern[1..], i % m)
  }

  lemma RestIsSome(pattern: ArgPattern, i: nat)
    requires pattern != [] && i < Product(pattern)
    ensures var m := Product(pattern[1..]); m > 0 && i / m < |pattern[0]| && i == i / m * m + i % m
  {
    DivBelow(i, |pattern[0]|, Product(pattern[1..]));
  }

  lemma DivBelow(i: nat, k: nat, m: nat)
    requires i < k * m
    ensures m > 0 && i / m < k && i == i / m * m + i % m
  {
    assert m == 0 ==> k * m == 0;
    if m > 0 && k <= i / m {
      MulUp(m, k, i / m);
    }
  }

  lemma MulUp(m: nat, a: nat, b: nat)
    requires a <= b
    ensures a * m <= m * b
  {
    assert m * b == a * m + m * (b - a);
  }

  /** Places and choices belong together one to one. */
  lemma {:induction false} ChoiceOfPlace(pattern: ArgPattern, choice: seq<nat>)
    requires Choice(pattern, choice)
    ensures Place(pattern, choice) < Product(pattern) && ChoiceAt(pattern, Place(pattern, choice)) == choice
    decreases |pattern|
  {
    if pattern != [] {
      var m, rest := Product(pattern[1..]), Place(pattern[1..], choice[1..]);
      ChoiceOfPlace(pattern[1..], choice[1..]);
      MulLess(m, choice[0], |pattern[0]|);
      assert choice[0] * m == m * choice[0] && |pattern[0]| * m == m * |pattern[0]|;
      DivModUnique(choice[0] * m + rest, m, choice[0], rest);
      assert choice == [choice[0]] + choice[1..];
    }
  }

  lemma {:induction false} PlaceOfChoice(pattern: ArgPattern, i: nat)
    requires i < Product(pattern)
    ensures Choice(pattern, ChoiceAt(pattern, i)) && Place(pattern, ChoiceAt(pattern, i)) == i
    decreases |pattern|
  {
    if pattern != [] {
      var m := Product(pattern[1..]);
      RestIsSome(pattern, i);
      PlaceOfChoice(pattern[1..], i % m);
      var rest := ChoiceAt(pattern[1..], i % m);
      assert ChoiceAt(pattern, i) == [i / m] + rest && ([i / m] + rest)[1..] == rest;
    }
  }

  lemma {:induction false} ForEachLabelAt(labels: seq<string>, others: seq<seq<string>>, a: nat, b: nat)
    requires a < |labels| && b < |others|
    ensures a * |others| + b < |ForEachLabel(labels, others)|
    ensures ForEachLabel(labels, others)[a * |others| + b] == others[b] + [labels[a]]
    decreases a
  {
    var m := |others|;
    ForEachLabelLength(labels, others);
    MulLess(m, a, |labels|);
    assert a * m == m * a && |labels| * m == m * |labels|;
    if a == 0 {
      assert 0 * m + b == b;
    } else {
      ForEachLabelAt(labels[1..], others, a - 1, b);
      assert a * m + b == m + ((a - 1) * m + b);
    }
  }

  /** The labels of a choice stand at its place. */
  lemma {:induction false} ExpandAt(pattern: ArgPattern, choice: seq<nat>)
    requires pattern != [] && Choice(pattern, choice)
    ensures Place(pattern, choice) < |Expand(pattern)|
    ensures Expand(pattern)[Place(pattern, choice)] == Labels(pattern, choice)
    decreases |pattern|
  {
    ExpandLength(pattern);
    ChoiceOfPlace(pattern, choice);
    if |pattern| == 1 {
      assert Product(pattern[1..]) == 1 && Place(pattern[1..], choice[1..]) == 0;
      assert Place(pattern, choice) == choice[0];
      assert Labels(pattern, choice) == [pattern[0][choice[0]]];
    } else {
      ExpandLength(pattern[1..]);
      ExpandAt(pattern[1..], choice[1..]);
      ForEachLabelAt(pattern[0], Expand(pattern[1..]), choice[0], Place(pattern[1..], choice[1..]));
      LabelsOneMore(pattern, choice);
    }
  }

  lemma LabelsOneMore(pattern: ArgPattern, choice: seq<nat>)
    requires pattern != [] && Choice(pattern, choice)
    ensures Choice(pattern[1..], choice[1..])
    ensures Labels(pattern, choice) == Labels(pattern[1..], choice[1..]) + [pattern[0][choice[0]]]
  {
  }

  /** The expansion lists every choice of labels exactly once: each choice at a place of its own,
      and each place with a choice. */
  lemma ExpandsAll(pattern: ArgPattern)
    requires pattern != []
    ensures |Expand(pattern)| == Product(pattern)
    ensures forall c :: Choice(pattern, c) ==>
              Place(pattern, c) < |Expand(pattern)| && Expand(pattern)[Place(pattern, c)] == Labels(pattern, c)
    ensures forall c, d :: Choice(pattern, c) && Choice(pattern, d) && Place(pattern, c) == Place(pattern, d) ==> c == d
    ensures forall i :: 0 <= i < |Expand(pattern)| ==>
              Choice(pattern, ChoiceAt(pattern, i)) && Place(pattern, ChoiceAt(pattern, i)) == i
  {
    ExpandLength(pattern);
    forall c | Choice(pattern, c)
      ensures Place(pattern, c) < |Expand(pattern)| && Expand(pattern)[Place(pattern, c)] == Labels(pattern, c)
      ensures ChoiceAt(pattern, Place(pattern, c)) == c
    {
      ExpandAt(pattern, c);
      ChoiceOfPlace(pattern, c);
    }
    forall i | 0 <= i < |Expand(pattern)|
      ensures Choice(pattern, ChoiceAt(pattern, i)) && Place(pattern, ChoiceAt(pattern, i)) == i
    {
      PlaceOfChoice(pattern, i);
    }
  }

  /** The text of an endpoint is its labels one after the other. */
  lemma {:induction false} JoinedAppend(a: seq<string>, b: seq<string>)
    ensures Joined(a + b) == Joined(a) + Joined(b)
    decreases |a|
  {
    if a == [] {
      assert a + b == b;
    } else {
      assert (a + b)[0] == a[0] && (a + b)[1..] == a[1..] + b;
      JoinedAppend(a[1..], b);
    }
  }

  lemma JoinedOne(x: string)
    ensures Joined([x]) == x && Joined([]) == ""
  {
    assert [x][1..] == [];
  }

  /** The endpoints of the arguments follow one another. */
  lemma {:induction false} ExpandAllAt(patterns: seq<ArgPattern>, a: nat, i: nat)
    requires EachHasEllipsis(patterns) && a < |patterns| && i < Product(patterns[a])
    ensures i < |ExpandOne(patterns[a])|
    ensures Sum(TotalSizes(patterns)[..a]) + i < |ExpandAll(patterns)|
    ensures ExpandAll(patterns)[Sum(TotalSizes(patterns)[..a]) + i] == ExpandOne(patterns[a])[i]
    decreases |patterns|
  {
    var n := |patterns| - 1;
    ExpandLength(patterns[a]);
    ExpandAllLength(patterns[..n]);
    assert TotalSizes(patterns)[..n] == TotalSizes(patterns[..n]);
    if a < n {
      ExpandAllAt(patterns[..n], a, i);
      assert TotalSizes(patterns)[..a] == TotalSizes(patterns[..n])[..a];
    }
  }
}
