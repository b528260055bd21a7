/** Comma-separated environment values: surrounding space and empty entries are
    discarded, the rest is kept in order. */
module EnvList {
  import opened Names
  import opened Strings

  /** The trimmed entries that are not empty, in order. */
  function Kept(items: seq<string>): seq<string> {
    if items == [] then []
    else
      var front, trimmed := Kept(items[..|items| - 1]), TrimSpace(items[|items| - 1]);
      if trimmed == "" then front else front + [trimmed]
  }

  function Parse(value: string): seq<string> {
    var trimmed := TrimSpace(value);
    if trimmed == "" then [] else Kept(Split(trimmed, ','))
  }

  method List(value: string) returns (result: seq<string>)
    ensures result == Parse(value)
  {
    var trimmed := TrimSpace(value);
    if trimmed == "" {
      return [];
    }
    var items := Split(trimmed, ',');
    result := [];
    for i := 0 to |items|
      invariant result == Kept(items[..i])
    {
      var item := TrimSpace(items[i]);
      assert items[..i + 1][..i] == items[..i];
      if item != "" {
        result := result + [item];
      }
    }
    assert items[..|items|] == items;
  }

  predicate NormalItem(item: string) { item != "" && TrimSpace(item) == item && ',' !in item }

  predicate Normal(items: seq<string>) { forall i :: 0 <= i < |items| ==> NormalItem(items[i]) }

  // ---- Laws ----

  lemma TrimmedIsNormal(item: string)
    requires ',' !in item && TrimSpace(item) != ""
    ensures NormalItem(TrimSpace(item))
  {
    TrimSpaceIsTrimmed(item);
    TrimIdempotent(TrimSpace(item));
  }

  lemma {:induction false} KeptNormal(items: seq<string>)
    requires forall i :: 0 <= i < |items| ==> ',' !in items[i]
    ensures Normal(Kept(items))
  {
    if items != [] {
      var last := items[|items| - 1];
      KeptNormal(items[..|items| - 1]);
      if TrimSpace(last) != "" {
        TrimmedIsNormal(last);
      }
    }
  }

  lemma {:induction false} KeptIdentity(items: seq<string>)
    requires Normal(items)
    ensures Kept(items) == items
  {
    if items != [] {
      KeptIdentity(items[..|items| - 1]);
      assert NormalItem(items[|items| - 1]);
      assert items == items[..|items| - 1] + [items[|items| - 1]];
    }
  }

  lemma NormalEnds(item: string)
    requires NormalItem(item)
    ensures !IsSpace(item[0]) && !IsSpace(item[|item| - 1])
  {
    TrimSpaceIsTrimmed(item);
  }

  lemma {:induction false} JoinEnds(items: seq<string>)
    requires items != [] && Normal(items)
    ensures var s := Join(items, ','); s != "" && s[0] == items[0][0] && !IsSpace(s[|s| - 1])
  {
    assert NormalItem(items[0]);
    NormalEnds(items[0]);
    if |items| > 1 {
      JoinEnds(items[1..]);
    }
  }

  /** A parsed list has only non-empty, trimmed, comma-free items. */
  lemma ParseNormal(value: string)
    ensures Normal(Parse(value))
  {
    if TrimSpace(value) != "" {
      SplitParts(TrimSpace(value), ',');
      KeptNormal(Split(TrimSpace(value), ','));
    }
  }

  /** Parsing yields a normal form: its items, joined and parsed again, are the
      same list; and every list of such items is one parsing can yield. */
  lemma ParseJoin(items: seq<string>)
    requires Normal(items)
    ensures Parse(Join(items, ',')) == items
  {
    if items != [] {
      JoinEnds(items);
      NormalEnds(items[0]);
      TrimIdempotent(Join(items, ','));
      SplitJoin(items, ',');
      KeptIdentity(items);
    }
  }

  /** Writing a parsed list back and parsing it again changes nothing. */
  lemma ParseStable(value: string)
    ensures Parse(Join(Parse(value), ',')) == Parse(value)
  {
    ParseNormal(value);
    ParseJoin(Parse(value));
  }

  lemma {:induction false} KeptParts(parts: seq<string>) returns (at: seq<nat>)
    ensures |at| == |Kept(parts)|
    ensures forall k :: 0 <= k < |at| ==> at[k] < |parts| && IsTrimmed(parts[at[k]], Kept(parts)[k])
    ensures forall k, l :: 0 <= k < l < |at| ==> at[k] < at[l]
    ensures forall i :: 0 <= i < |parts| ==> (i in at <==> !AllSpace(parts[i]))
  {
    hide IsTrimmed, AllSpace, TrimSpace;
    at := [];
    if parts != [] {
      var front, last := parts[..|parts| - 1], parts[|parts| - 1];
      at := KeptParts(front);
      TrimSpaceIsTrimmed(last);
      TrimmedEmpty(last);
      assert forall i :: 0 <= i < |front| ==> parts[i] == front[i];
      if TrimSpace(last) != "" {
        at := at + [|parts| - 1];
      }
    }
  }

  /** Which items a list has: of the parts between the commas, those that are not all
      space, each trimmed, and in order. */
  lemma ParseParts(value: string) returns (at: seq<nat>)
    ensures var parts := Split(TrimSpace(value), ',');
            && |at| == |Parse(value)|
            && (forall k :: 0 <= k < |at| ==> at[k] < |parts| && IsTrimmed(parts[at[k]], Parse(value)[k]))
            && (forall k, l :: 0 <= k < l < |at| ==> at[k] < at[l])
            && (forall i :: 0 <= i < |parts| ==> (i in at <==> !AllSpace(parts[i])))
  {
    at := KeptParts(Split(TrimSpace(value), ','));
  }
}
