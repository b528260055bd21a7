/** Splitting a text at a separator, and joining its parts again. */
module Strings {
  /** strings.Split: one part more than there are separators. */
  function Split(s: string, sep: char): (parts: seq<string>)
    ensures parts != []
  {
    if s == "" then [""]
    else
      var rest := Split(s[1..], sep);
      if s[0] == sep then [""] + rest else [[s[0]] + rest[0]] + rest[1..]
  }

  function Join(items: seq<string>, sep: char): string {
    if items == [] then "" else if |items| == 1 then items[0] else items[0] + [sep] + Join(items[1..], sep)
  }

  // ---- Laws ----

  lemma JoinEmptyFirst(rest: seq<string>, sep: char)
    requires rest != []
    ensures Join([""] + rest, sep) == [sep] + Join(rest, sep)
  {
    assert ([""] + rest)[1..] == rest;
  }

  lemma JoinLongerFirst(c: char, rest: seq<string>, sep: char)
    requires rest != []
    ensures Join([[c] + rest[0]] + rest[1..], sep) == [c] + Join(rest, sep)
  {
    var items := [[c] + rest[0]] + rest[1..];
    assert items[1..] == rest[1..];
    if |rest| > 1 {
      assert ([c] + rest[0]) + [sep] + Join(rest[1..], sep) == [c] + (rest[0] + [sep] + Join(rest[1..], sep));
    }
  }

  /** Splitting loses nothing and leaves no separator in any part. */
  lemma {:induction false} SplitParts(s: string, sep: char)
    ensures Join(Split(s, sep), sep) == s
    ensures forall i :: 0 <= i < |Split(s, sep)| ==> sep !in Split(s, sep)[i]
  {
    hide Join;
    if s == "" {
      JoinOne("", sep);
    } else {
      var rest := Split(s[1..], sep);
      SplitParts(s[1..], sep);
      assert s == [s[0]] + s[1..];
      if s[0] == sep {
        JoinEmptyFirst(rest, sep);
      } else {
        JoinLongerFirst(s[0], rest, sep);
      }
    }
  }

  lemma JoinOne(item: string, sep: char)
    ensures Join([item], sep) == item
  {
  }

  lemma {:induction false} SplitItem(item: string, rest: string, sep: char)
    requires sep !in item
    ensures Split(item + [sep] + rest, sep) == [item] + Split(rest, sep)
    ensures Split(item, sep) == [item]
  {
    var s := item + [sep] + rest;
    if item == "" {
      assert s[1..] == rest;
    } else {
      SplitItem(item[1..], rest, sep);
      assert s[1..] == item[1..] + [sep] + rest;
      assert [item[0]] + item[1..] == item;
      assert ([item[1..]] + Split(rest, sep))[1..] == Split(rest, sep);
    }
  }

  lemma {:induction false} SplitJoin(items: seq<string>, sep: char)
    requires items != [] && forall i :: 0 <= i < |items| ==> sep !in items[i]
    ensures Split(Join(items, sep), sep) == items
  {
    if |items| == 1 {
      SplitItem(items[0], "", sep);
      assert items == [items[0]];
    } else {
      SplitJoin(items[1..], sep);
      SplitItem(items[0], Join(items[1..], sep), sep);
      assert items == [items[0]] + items[1..];
    }
  }
}
