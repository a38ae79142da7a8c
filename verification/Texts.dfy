/** Texts are sequences of Unicode scalar values; their size counts UTF-8 bytes. */
module Texts {
  import opened Wrappers

  function CharSize(c: char): nat {
    if c as int < 0x80 then 1 else if c as int < 0x800 then 2 else if c as int < 0x10000 then 3 else 4
  }

  function Size(text: string): nat {
    if text == "" then 0 else CharSize(text[0]) + Size(text[1..])
  }

  lemma {:induction false} SizeConcat(left: string, right: string)
    ensures Size(left + right) == Size(left) + Size(right)
  {
    if left == "" {
      assert left + right == right;
    } else {
      assert (left + right)[1..] == left[1..] + right;
      SizeConcat(left[1..], right);
    }
  }

  function Concat(lines: seq<string>): string {
    if lines == [] then "" else lines[0] + Concat(lines[1..])
  }

  lemma {:induction false} ConcatSplit(a: seq<string>, b: seq<string>)
    ensures Concat(a + b) == Concat(a) + Concat(b)
  {
    if a == [] {
      assert a + b == b;
    } else {
      assert (a + b)[1..] == a[1..] + b;
      ConcatSplit(a[1..], b);
    }
  }

  lemma ConcatFirst(line: string, rest: seq<string>)
    ensures Concat([line] + rest) == line + Concat(rest)
  {
    assert ([line] + rest)[1..] == rest;
  }

  function IndexOf(text: string, c: char): (index: Option<nat>)
    ensures index.Some? ==> index.value < |text| && text[index.value] == c && c !in text[..index.value]
    ensures index.None? ==> c !in text
  {
    if text == "" then None
    else if text[0] == c then Some(0)
    else
      var rest := IndexOf(text[1..], c);
      if rest.None? then None else
      assert text[..rest.value + 1] == [text[0]] + text[1..][..rest.value];
      Some(rest.value + 1)
  }

  lemma {:induction false} IndexOfFirst(before: string, c: char, after: string)
    requires c !in before
    ensures IndexOf(before + [c] + after, c) == Some(|before|)
  {
    if before != "" {
      assert (before + [c] + after)[1..] == before[1..] + [c] + after;
      IndexOfFirst(before[1..], c, after);
    }
  }
}
