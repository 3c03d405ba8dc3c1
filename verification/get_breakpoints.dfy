/**
 * The breakpoint resolver `GetBreakpoints`: queries over a table from
 * breakpoint names to size strings ("medium" -> "768px"). The table the
 * module builds once at load time is passed here as a parameter, the
 * viewport width `current` measures is a parameter too, and adjustments
 * are integers.
 */
module GetBreakpoints {
  import opened Wrappers
  import opened Digits
  import opened Sorting

  /** Breakpoint name -> size string, as the load-time filter left it. */
  type Table = map<string, string>

  /**
   * `_resolveRaw(key)`: a key that starts with digits is its own number and
   * the table is not consulted; any other key takes the leading number of
   * its table value. An empty key (even one the table holds), an absent key,
   * an empty value and a value without leading digits all give None.
   */
  function ResolveRaw(table: Table, key: string): (r: Option<nat>)
    ensures key == "" ==> r == None
    ensures ParseLeadingInt(key).Some? ==> r == ParseLeadingInt(key)
    ensures key != "" && ParseLeadingInt(key).None? && key in table ==> r == ParseLeadingInt(table[key])
    ensures ParseLeadingInt(key).None? && key !in table ==> r == None
    ensures r.Some? <==> ParseLeadingInt(key).Some? || (key != "" && key in table && ParseLeadingInt(table[key]).Some?)
  {
    if key == "" then None
    else if ParseLeadingInt(key).Some? then ParseLeadingInt(key)
    else if key in table && table[key] != "" then
      // `val.match(/^\d+/)`, then `parseInt(match[0])`
      var m := LeadingDigits(table[key]);
      if m != [] then Some(DigitsValue(m)) else None
    else None
  }

  /**
   * The number `all` writes for a resolved value `n`: shifted by the
   * adjustment and clamped at 0, a step skipped when the adjustment is 0.
   */
  function AdjustValue(n: nat, adjustment: int): (v: nat)
    ensures v == if n + adjustment < 0 then 0 else n + adjustment
  {
    if adjustment != 0 then
      var shifted := n + adjustment;
      if shifted < 0 then 0 else shifted
    else n
  }

  /**
   * The entry `all(adjustment)` holds for `key`: an entry that resolves ends
   * in "px" and reads back as its adjusted number; any other is copied.
   */
  function AdjustEntry(table: Table, key: string, adjustment: int): (entry: string)
    requires key in table
    ensures ResolveRaw(table, key).None? ==> entry == table[key]
    ensures ResolveRaw(table, key).Some? ==>
              ParseLeadingInt(entry) == Some(AdjustValue(ResolveRaw(table, key).value, adjustment))
  {
    match ResolveRaw(table, key)
    case Some(n) =>
      PxRoundTrip(AdjustValue(n, adjustment));
      Px(AdjustValue(n, adjustment))
    case None => table[key]
  }

  /** The table `all(adjustment)` returns; no key is added or dropped. */
  function Adjusted(table: Table, adjustment: int): (r: Table)
    ensures r.Keys == table.Keys
  {
    map key | key in table :: AdjustEntry(table, key, adjustment)
  }

  /** The entries of `all(adjustment)` for the keys in `done`. */
  ghost function AdjustedOn(table: Table, done: set<string>, adjustment: int): Table
    requires done <= table.Keys
  {
    map key | key in done :: AdjustEntry(table, key, adjustment)
  }

  /** Writing the entry of one more key extends the entries written so far. */
  lemma AdjustedOnStep(table: Table, done: set<string>, key: string, adjustment: int)
    requires done <= table.Keys && key in table && key !in done
    ensures AdjustedOn(table, done + {key}, adjustment) ==
              AdjustedOn(table, done, adjustment)[key := AdjustEntry(table, key, adjustment)]
  {
  }

  /**
   * `all(adjustment)`: visits every key of the table once and writes its
   * adjusted entry into a fresh table.
   */
  method All(table: Table, adjustment: int) returns (adjusted: Table)
    ensures adjusted == Adjusted(table, adjustment)
  {
    adjusted := map[];
    var rest := table.Keys;
    while rest != {}
      invariant rest <= table.Keys
      invariant adjusted == AdjustedOn(table, table.Keys - rest, adjustment)
      decreases rest
    {
      var key :| key in rest;
      AdjustedOnStep(table, table.Keys - rest, key, adjustment);
      var originalValue := table[key];
      var numeric := ResolveRaw(table, key);
      if numeric.Some? {
        var newValue: int := numeric.value;
        if adjustment != 0 {
          newValue := newValue + adjustment;
          newValue := if newValue < 0 then 0 else newValue;
          // Math.floor leaves an integer unchanged
        }
        assert newValue == AdjustValue(numeric.value, adjustment);
        adjusted := adjusted[key := Px(newValue)];
      } else {
        adjusted := adjusted[key := originalValue];
      }
      assert table.Keys - (rest - {key}) == (table.Keys - rest) + {key};
      rest := rest - {key};
    }
    assert table.Keys - rest == table.Keys;
  }

  /** A resolvable entry becomes "<n>px", where n is the resolved number shifted and clamped at 0. */
  lemma AdjustedResolvedEntry(table: Table, key: string, adjustment: int, n: nat)
    requires key in table && ResolveRaw(table, key) == Some(n)
    ensures Adjusted(table, adjustment)[key] == NatToString(AdjustValue(n, adjustment)) + "px"
    ensures ParseLeadingInt(Adjusted(table, adjustment)[key]) == Some(AdjustValue(n, adjustment))
    ensures adjustment == 0 ==> Adjusted(table, 0)[key] == Px(n)
  {
    PxRoundTrip(AdjustValue(n, adjustment));
  }

  /** An entry that does not resolve is copied unchanged, whatever the adjustment. */
  lemma AdjustedUnresolvedEntry(table: Table, key: string, adjustment: int)
    requires key in table && ResolveRaw(table, key).None?
    ensures Adjusted(table, adjustment)[key] == table[key]
  {
  }

  /** With no adjustment, a value already written "<n>px" in canonical decimal stays as it is. */
  lemma AdjustedZeroKeepsCanonical(table: Table, key: string, digits: string)
    requires key in table && ParseLeadingInt(key).None?
    requires digits != [] && AllDigits(digits) && (digits[0] == '0' ==> digits == "0")
    requires table[key] == digits + "px"
    ensures Adjusted(table, 0)[key] == table[key]
  {
    ParseLeadingIntOfRun(digits, "px");
    NatToStringOfDigits(digits);
  }

  /** One entry of `all(adjustment)` passed again through `all(0)` stays as it is, unless its key starts with digits. */
  lemma AdjustedEntryIsNormalised(table: Table, key: string, adjustment: int)
    requires key in table && (adjustment == 0 || ParseLeadingInt(key).None?)
    ensures Adjusted(Adjusted(table, adjustment), 0)[key] == Adjusted(table, adjustment)[key]
  {
    var once := Adjusted(table, adjustment);
    assert once[key] == AdjustEntry(table, key, adjustment);
    assert Adjusted(once, 0)[key] == AdjustEntry(once, key, 0);
    match ResolveRaw(table, key)
    case Some(n) =>
      var m := AdjustValue(n, adjustment);
      assert once[key] == Px(m);
      assert ResolveRaw(once, key) == Some(m);
    case None =>
      assert ResolveRaw(once, key).None?;
  }

  /**
   * Feeding the output of `all(adjustment)` back through `all(0)` changes
   * nothing, when the adjustment is 0 or no key starts with a digit.
   */
  lemma AdjustedIsNormalised(table: Table, adjustment: int)
    requires adjustment == 0 || forall key :: key in table ==> ParseLeadingInt(key).None?
    ensures Adjusted(Adjusted(table, adjustment), 0) == Adjusted(table, adjustment)
  {
    forall key | key in table
      ensures Adjusted(Adjusted(table, adjustment), 0)[key] == Adjusted(table, adjustment)[key]
    {
      AdjustedEntryIsNormalised(table, key, adjustment);
    }
  }

  /**
   * A key that starts with digits ignores its stored value, so `all(0)` on
   * an adjusted table undoes the adjustment of that entry.
   */
  lemma NumericKeyDropsAdjustment(table: Table, key: string, adjustment: int, n: nat)
    requires key in table && ParseLeadingInt(key) == Some(n)
    ensures Adjusted(table, adjustment)[key] == Px(AdjustValue(n, adjustment))
    ensures Adjusted(Adjusted(table, adjustment), 0)[key] == Px(n)
  {
    var once := Adjusted(table, adjustment);
    assert ResolveRaw(table, key) == Some(n);
    assert once[key] == AdjustEntry(table, key, adjustment);
    assert key in once && ResolveRaw(once, key) == Some(n);
    assert Adjusted(once, 0)[key] == AdjustEntry(once, key, 0);
  }

  /**
   * `get(key, adjustment)`: the entry of `all(adjustment)` for `key`, or
   * None when the key is absent or its entry is the empty string.
   */
  function Get(table: Table, key: string, adjustment: int): (r: Option<string>)
    ensures r.Some? ==> key in table && r.value != ""
    ensures key !in table ==> r == None
    ensures key in table && ResolveRaw(table, key).Some? ==>
              r == Some(Px(AdjustValue(ResolveRaw(table, key).value, adjustment)))
    ensures key in table && ResolveRaw(table, key).None? ==>
              r == if table[key] == "" then None else Some(table[key])
  {
    var allBreakpoints := Adjusted(table, adjustment);
    if key in allBreakpoints && allBreakpoints[key] != "" then Some(allBreakpoints[key]) else None
  }

  /**
   * `resolve(key, adjustment)`: an empty key gives None; a key that starts
   * with digits is returned as that number, unadjusted; any other key gives
   * the leading number of `get(key, adjustment)`, or None.
   */
  function Resolve(table: Table, key: string, adjustment: int): (r: Option<nat>)
    ensures key == "" ==> r == None
    ensures ParseLeadingInt(key).Some? ==> r == ParseLeadingInt(key)
    ensures ParseLeadingInt(key).None? && key !in table ==> r == None
  {
    if key == "" then None
    else if ParseLeadingInt(key).Some? then ParseLeadingInt(key)
    else
      match Get(table, key, adjustment)
      case Some(val) =>
        // `val.match(/^\d+/)`, then `parseInt(match[0])`
        var m := LeadingDigits(val);
        if m != [] then Some(DigitsValue(m)) else None
      case None => None
  }

  /**
   * `resolve` is `_resolveRaw` with the adjustment applied, except for keys
   * that start with digits, which are never adjusted.
   */
  lemma ResolveIsAdjustedRaw(table: Table, key: string, adjustment: int)
    ensures ParseLeadingInt(key).Some? ==> Resolve(table, key, adjustment) == ResolveRaw(table, key)
    ensures ParseLeadingInt(key).None? ==>
              Resolve(table, key, adjustment) ==
                match ResolveRaw(table, key)
                case Some(n) => Some(AdjustValue(n, adjustment))
                case None => None
  {
    if key != "" && ParseLeadingInt(key).None? && key in table {
      match ResolveRaw(table, key)
      case Some(n) =>
        PxRoundTrip(AdjustValue(n, adjustment));
      case None =>
    }
  }

  /** Without adjustment `resolve` and `_resolveRaw` agree on every key. */
  lemma ResolveAtZeroIsRaw(table: Table, key: string)
    ensures Resolve(table, key, 0) == ResolveRaw(table, key)
  {
    ResolveIsAdjustedRaw(table, key, 0);
  }

  /** A named breakpoint whose value resolves to `n` resolves, adjusted, to max(0, n + adjustment). */
  lemma ResolveNamed(table: Table, key: string, adjustment: int, n: nat)
    requires key != "" && ParseLeadingInt(key).None? && key in table && ParseLeadingInt(table[key]) == Some(n)
    ensures Resolve(table, key, adjustment) == Some(if n + adjustment < 0 then 0 else n + adjustment)
  {
    ResolveIsAdjustedRaw(table, key, adjustment);
  }

  /**
   * `Number(key)` for the keys it turns into a number: all-digit strings (the
   * empty key is 0). On a non-empty such key it agrees with `parseInt`.
   */
  function KeyNumber(key: string): (r: Option<nat>)
    ensures r.Some? <==> AllDigits(key)
    ensures r.Some? && key != "" ==> ParseLeadingInt(key) == r
  {
    if AllDigits(key) then
      assert key + "" == key;
      LeadingDigitsOfRun(key, "");
      Some(DigitsValue(key))
    else None
  }

  /** `Object.keys(table)`: every key of the table exactly once, in some order. */
  method Keys(table: Table) returns (keys: seq<string>)
    ensures forall key :: key in keys <==> key in table
    ensures |keys| == |table|
  {
    keys := [];
    var rest := table.Keys;
    while rest != {}
      invariant rest <= table.Keys
      invariant forall key :: key in keys <==> key in table && key !in rest
      invariant |keys| + |rest| == |table.Keys|
      decreases rest
    {
      var key :| key in rest;
      keys := keys + [key];
      rest := rest - {key};
    }
  }

  /** `.map(Number)` over the keys, with the keys that become NaN left out. */
  function KeyNumbers(keys: seq<string>): (ns: seq<nat>)
    ensures forall n :: n in ns ==> exists key :: key in keys && KeyNumber(key) == Some(n)
    ensures forall key :: key in keys && KeyNumber(key).Some? ==> KeyNumber(key).value in ns
  {
    if keys == [] then []
    else
      var tail := KeyNumbers(keys[1..]);
      assert forall key :: key in keys[1..] ==> key in keys;
      assert forall key :: key in keys ==> key == keys[0] || key in keys[1..];
      match KeyNumber(keys[0])
      case Some(n) => [n] + tail
      case None => tail
  }

  /** `n` is the number of some key of the table. */
  ghost predicate IsKeyNumber(table: Table, n: nat) {
    exists key :: key in table && KeyNumber(key) == Some(n)
  }

  /** Sorting the numbers of a table's keys keeps exactly those numbers. */
  lemma SortedKeyNumbers(table: Table, keys: seq<string>)
    requires forall key :: key in keys <==> key in table
    ensures forall n: nat :: n in SortAsc(KeyNumbers(keys)) <==> IsKeyNumber(table, n)
  {
    var ns := KeyNumbers(keys);
    var sorted := SortAsc(ns);
    forall n: nat ensures n in sorted <==> IsKeyNumber(table, n) {
      assert n in sorted <==> n in multiset(sorted);
      assert n in ns <==> n in multiset(ns);
      if IsKeyNumber(table, n) {
        var key :| key in table && KeyNumber(key) == Some(n);
        assert key in keys;
      }
    }
  }

  /** `best` is the largest element of `ns` not above `width`, or None when there is none. */
  ghost predicate LargestAtMost(ns: seq<nat>, width: int, best: Option<nat>) {
    && (best.None? <==> forall j :: 0 <= j < |ns| ==> width < ns[j])
    && (best.Some? ==> best.value <= width && best.value in ns)
    && (best.Some? ==> forall j :: 0 <= j < |ns| && ns[j] <= width ==> ns[j] <= best.value)
  }

  /** One step of the walk in `current`: in ascending order, the last element not above the width is the largest. */
  lemma LargestAtMostStep(sorted: seq<nat>, i: nat, width: int, best: Option<nat>)
    requires SortedAsc(sorted) && i < |sorted|
    requires LargestAtMost(sorted[..i], width, best)
    ensures LargestAtMost(sorted[..i + 1], width, if width >= sorted[i] then Some(sorted[i]) else best)
  {
    assert sorted[..i + 1] == sorted[..i] + [sorted[i]];
  }

  /** The largest number of a table's keys not above the width, read off a sequence holding exactly those numbers. */
  lemma LargestKeyNumber(table: Table, ns: seq<nat>, width: int, best: Option<nat>)
    requires forall n: nat :: n in ns <==> IsKeyNumber(table, n)
    requires LargestAtMost(ns, width, best)
    ensures best.None? <==> forall n: nat :: IsKeyNumber(table, n) ==> width < n
    ensures best.Some? ==> best.value <= width && IsKeyNumber(table, best.value)
    ensures best.Some? ==> forall n: nat :: IsKeyNumber(table, n) && n <= width ==> n <= best.value
  {
    forall n: nat | IsKeyNumber(table, n) ensures exists j :: 0 <= j < |ns| && ns[j] == n {
      assert n in ns;
    }
  }

  /**
   * `current(adjustment)` at a given width: the largest numeric key not
   * above the width, or None when every numeric key is above it. Keys that
   * are not numbers are never chosen, and the adjustment has no influence.
   */
  method Current(table: Table, adjustment: int, width: int) returns (currentBreakpoint: Option<nat>)
    ensures currentBreakpoint.None? <==> forall n: nat :: IsKeyNumber(table, n) ==> width < n
    ensures currentBreakpoint.Some? ==>
              currentBreakpoint.value <= width && IsKeyNumber(table, currentBreakpoint.value)
    ensures currentBreakpoint.Some? ==>
              forall n: nat :: IsKeyNumber(table, n) && n <= width ==> n <= currentBreakpoint.value
  {
    var allBreakpoints := All(table, adjustment);
    assert allBreakpoints.Keys == table.Keys;
    var keys := Keys(allBreakpoints);
    assert forall key :: key in keys <==> key in table;
    SortedKeyNumbers(table, keys);
    var sorted := SortAsc(KeyNumbers(keys));
    currentBreakpoint := None;
    for i := 0 to |sorted|
      invariant LargestAtMost(sorted[..i], width, currentBreakpoint)
    {
      LargestAtMostStep(sorted, i, width, currentBreakpoint);
      if width >= sorted[i] {
        currentBreakpoint := Some(sorted[i]);
      }
    }
    assert sorted[..|sorted|] == sorted;
    LargestKeyNumber(table, sorted, width, currentBreakpoint);
  }

  /** The three named breakpoints small = 0px, medium = 768px, large = 1024px. */
  function NamedTable(): Table {
    map["small" := "0px", "medium" := "768px", "large" := "1024px"]
  }

  /** "768px" starts with the number 768. */
  lemma Parse768px()
    ensures ParseLeadingInt("768px") == Some(768)
  {
    assert "768" == NatToString(768) by {
      assert NatToString(7) == "7";
      assert NatToString(76) == "76";
    }
    assert Px(768) == "768" + "px" == "768px";
    PxRoundTrip(768);
  }

  /** "500" is the number 500. */
  lemma Parse500()
    ensures ParseLeadingInt("500") == Some(500)
  {
    assert "500" == NatToString(500) by {
      assert NatToString(5) == "5";
      assert NatToString(50) == "50";
    }
    assert "500" == "500" + "";
    ParseLeadingIntOfRun("500", "");
  }

  /** On the named table "medium" adjusted by 10 resolves to 778. */
  lemma NamedTableResolveMedium()
    ensures Resolve(NamedTable(), "medium", 10) == Some(778)
  {
    Parse768px();
    assert "medium"[0] == 'm';
    ResolveNamed(NamedTable(), "medium", 10, 768);
  }

  /** A numeric string resolves to itself, unadjusted, whatever the table. */
  lemma NumericStringResolve(table: Table)
    ensures Resolve(table, "500", 50) == Some(500)
  {
    Parse500();
  }

  /** No key of the named table is a number, so `current` finds no breakpoint there at any width. */
  lemma NamedTableHasNoKeyNumbers()
    ensures forall n: nat :: !IsKeyNumber(NamedTable(), n)
  {
  }
}
