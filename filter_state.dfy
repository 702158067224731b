/**
 * The filter panel's state updates (components/UniversityFilters.tsx): `update`
 * trims the typed value and stores it, or stores `undefined` when nothing but
 * whitespace was typed; `reset` yields the empty object; `activeFilterCount` counts
 * the values that are neither `undefined` nor ''.
 */
module FilterState {
  import opened Api

  // ---------------------------------------------------------------------------
  // String.prototype.trim

  /** The ECMAScript WhiteSpace and LineTerminator code points, which `trim` removes. */
  predicate IsWhitespace(c: char)
  {
    || c == '\t' || c == '\n' || c == '\U{000B}' || c == '\U{000C}' || c == '\r'
    || c == ' ' || c == '\U{00A0}' || c == '\U{1680}' || ('\U{2000}' <= c <= '\U{200A}')
    || c == '\U{2028}' || c == '\U{2029}' || c == '\U{202F}' || c == '\U{205F}'
    || c == '\U{3000}' || c == '\U{FEFF}'
  }

  predicate AllWhitespace(s: string)
  {
    forall i | 0 <= i < |s| :: IsWhitespace(s[i])
  }

  /** Drops the longest all-whitespace prefix. */
  function TrimStart(s: string): (r: string)
    ensures |r| <= |s| && r == s[|s| - |r|..]
    ensures forall i | 0 <= i < |s| - |r| :: IsWhitespace(s[i])
    ensures r != [] ==> !IsWhitespace(r[0])
  {
    if s != [] && IsWhitespace(s[0]) then
      var r := TrimStart(s[1..]);
      assert s[|s| - |r|..] == s[1..][|s| - 1 - |r|..];
      assert forall i | 1 <= i < |s| - |r| :: s[i] == s[1..][i - 1];
      r
    else
      s
  }

  /** Drops the longest all-whitespace suffix. */
  function TrimEnd(s: string): (r: string)
    ensures |r| <= |s| && r == s[..|r|]
    ensures forall i | |r| <= i < |s| :: IsWhitespace(s[i])
    ensures r != [] ==> !IsWhitespace(r[|r| - 1])
  {
    if s != [] && IsWhitespace(s[|s| - 1]) then
      var r := TrimEnd(s[..|s| - 1]);
      assert s[..|s| - 1][..|r|] == s[..|r|];
      r
    else
      s
  }

  /**
   * `value.trim()`: the input without its leading and trailing whitespace.  It is
   * empty exactly when the input is whitespace only.
   */
  function Trim(s: string): (r: string)
    ensures r == "" <==> AllWhitespace(s)
  {
    var r := TrimEnd(TrimStart(s));
    TrimBothEnds(s, r);
    r
  }

  /** A non-empty trimmed string neither starts nor ends with whitespace. */
  lemma TrimmedEnds(s: string)
    ensures var r := Trim(s); r != "" ==> !IsWhitespace(r[0]) && !IsWhitespace(r[|r| - 1])
  {
    TrimBothEnds(s, Trim(s));
  }

  lemma {:induction false} TrimBothEnds(s: string, r: string)
    requires r == TrimEnd(TrimStart(s))
    ensures r == "" <==> AllWhitespace(s)
    ensures r != "" ==> !IsWhitespace(r[0]) && !IsWhitespace(r[|r| - 1])
  {
    var t := TrimStart(s);
    var d := |s| - |t|;
    assert t != [] ==> t[0] == s[d] && !IsWhitespace(s[d]);
    if r == "" {
      assert t == [];
    }
    if r != "" {
      assert r[0] == t[0];
    }
  }

  // ---------------------------------------------------------------------------
  // Object spread and the three operations

  /**
   * `{ ...f, [k]: v }`: an existing property keeps its position and takes the new
   * value; a new property is appended.  Every other property is unchanged.
   */
  function Assign(f: Filters, k: FilterKey, v: FieldValue): (r: Filters)
    ensures Get(r, k) == v
    ensures forall k' | k' != k :: Get(r, k') == Get(f, k')
    ensures k !in Keys(f) ==> r == f + [Entry(k, v)]
    ensures k in Keys(f) ==> |r| == |f| && forall i | 0 <= i < |f| :: r[i].key == f[i].key
    ensures forall i | 0 <= i < |r| :: r[i].value == v || r[i] in f
  {
    if f == [] then [Entry(k, v)]
    else if f[0].key == k then
      [Entry(k, v)] + f[1..]
    else
      var rest := Assign(f[1..], k, v);
      KeysCons(f[0], f[1..]);
      assert [f[0]] + f[1..] == f;
      assert forall i | 1 <= i < |f| :: f[i] == f[1..][i - 1];
      [f[0]] + rest
  }

  /** The spread adds the key to the object's keys and never duplicates one. */
  lemma {:induction false} AssignKeys(f: Filters, k: FilterKey, v: FieldValue)
    ensures Keys(Assign(f, k, v)) == Keys(f) + {k}
    ensures WellFormed(f) ==> WellFormed(Assign(f, k, v))
  {
    var r := Assign(f, k, v);
    if k in Keys(f) {
      assert forall x :: x in Keys(r) <==> x in Keys(f) by {
        forall x ensures x in Keys(r) <==> x in Keys(f) {
          if x in Keys(r) {
            var i :| 0 <= i < |r| && r[i].key == x;
            assert f[i].key == x;
          }
          if x in Keys(f) {
            var i :| 0 <= i < |f| && f[i].key == x;
            assert r[i].key == x;
          }
        }
      }
    } else {
      KeysAppend(f, Entry(k, v));
    }
  }

  lemma {:induction false} KeysAppend(f: Filters, e: Entry)
    ensures Keys(f + [e]) == Keys(f) + {e.key}
  {
    var s := f + [e];
    forall x | x in Keys(s) ensures x in Keys(f) + {e.key} {
      var i :| 0 <= i < |s| && s[i].key == x;
      if i < |f| { assert s[i] == f[i]; }
    }
    forall x | x in Keys(f) ensures x in Keys(s) {
      var i :| 0 <= i < |f| && f[i].key == x;
      assert s[i] == f[i];
    }
    assert s[|f|] == e;
  }

  lemma {:induction false} KeysCons(e: Entry, f: Filters)
    ensures Keys([e] + f) == {e.key} + Keys(f)
  {
    var s := [e] + f;
    forall x | x in Keys(s) ensures x in {e.key} + Keys(f) {
      var i :| 0 <= i < |s| && s[i].key == x;
      if i > 0 { assert s[i] == f[i - 1]; }
    }
    forall x | x in Keys(f) ensures x in Keys(s) {
      var i :| 0 <= i < |f| && f[i].key == x;
      assert s[i + 1] == f[i];
    }
    assert s[0].key == e.key;
  }

  /** `value.trim() || undefined`: the trimmed text, or `undefined` when it is empty. */
  function Normalize(raw: string): (v: FieldValue)
    ensures v == Undefined <==> AllWhitespace(raw)
    ensures v != Undefined ==> v == Str(Trim(raw)) && Trim(raw) != ""
  {
    if Trim(raw) == "" then Undefined else Str(Trim(raw))
  }

  /**
   * `update(key, value)` of UniversityFilters.tsx:107-114: the key is set to the
   * trimmed value, or to `undefined` when the value is whitespace only; every other
   * key reads as before.
   */
  function Update(f: Filters, k: FilterKey, raw: string): (r: Filters)
    ensures AllWhitespace(raw) ==> Get(r, k) == Undefined
    ensures !AllWhitespace(raw) ==> Get(r, k) == Str(Trim(raw)) && Trim(raw) != ""
    ensures forall k' | k' != k :: Get(r, k') == Get(f, k')
    ensures WellFormed(f) ==> WellFormed(r)
  {
    AssignKeys(f, k, Normalize(raw));
    Assign(f, k, Normalize(raw))
  }

  /** `reset()`: the empty object, which sets no criterion. */
  function Reset(): (r: Filters)
    ensures Criteria(r) == map[] && QueryPairs(r) == []
  {
    []
  }

  /** The predicate of UniversityFilters.tsx:126. */
  predicate IsActive(v: FieldValue)
  {
    v != Undefined && v != Str("")
  }

  /** `null` and every non-empty string count as active; only `undefined` and '' do not. */
  lemma ActiveValues(v: FieldValue)
    ensures IsActive(v) <==> v.Null? || (v.Str? && v.s != "")
    ensures IsActive(v) ==> !IsSent(v) ==> v.Null?
  {
  }

  /** `Object.values(filters).filter(v => v !== undefined && v !== '').length`. */
  function ActiveFilterCount(f: Filters): (n: nat)
    ensures n <= |f|
    ensures n == 0 <==> forall i | 0 <= i < |f| :: !IsActive(f[i].value)
  {
    if f == [] then 0
    else
      assert forall i | 1 <= i < |f| :: f[i] == f[1..][i - 1];
      (if IsActive(f[0].value) then 1 else 0) + ActiveFilterCount(f[1..])
  }

  /** After `reset` no filter is active. */
  lemma ResetHasNoActiveFilter()
    ensures ActiveFilterCount(Reset()) == 0
  {
  }

  /**
   * The values `update` and `reset` can store: `undefined` or a non-empty string
   * (never '' and never null).
   */
  predicate Canonical(f: Filters)
  {
    forall i | 0 <= i < |f| :: f[i].value == Undefined || (f[i].value.Str? && f[i].value.s != "")
  }

  /** `update` keeps an object canonical and well-formed. */
  lemma UpdateKeepsCanonical(f: Filters, k: FilterKey, raw: string)
    requires Canonical(f) && WellFormed(f)
    ensures Canonical(Update(f, k, raw)) && WellFormed(Update(f, k, raw))
  {
  }

  /** Setting the same key twice is the same as setting it once to the later value. */
  lemma {:induction false} AssignTwice(f: Filters, k: FilterKey, v1: FieldValue, v2: FieldValue)
    ensures Assign(Assign(f, k, v1), k, v2) == Assign(f, k, v2)
  {
    if f != [] && f[0].key != k {
      AssignTwice(f[1..], k, v1, v2);
      assert Assign(f, k, v1)[1..] == Assign(f[1..], k, v1);
    }
  }

  /** For the same key the last update wins, on the object itself (entry order included). */
  lemma UpdateLastWins(f: Filters, k: FilterKey, raw1: string, raw2: string)
    ensures Update(Update(f, k, raw1), k, raw2) == Update(f, k, raw2)
  {
    AssignTwice(f, k, Normalize(raw1), Normalize(raw2));
  }

  /** Applying the same update twice gives the same object as applying it once. */
  lemma UpdateIdempotent(f: Filters, k: FilterKey, raw: string)
    ensures Update(Update(f, k, raw), k, raw) == Update(f, k, raw)
  {
    UpdateLastWins(f, k, raw, raw);
  }

  /** Typing only whitespace is the same as clearing the field. */
  lemma WhitespaceIsClearing(f: Filters, k: FilterKey, raw: string)
    requires AllWhitespace(raw)
    ensures Update(f, k, raw) == Update(f, k, "")
  {
  }

  /**
   * On the criteria, `update` sets the key to the trimmed value, or removes the key
   * when that is empty, and leaves every other criterion as it was.
   */
  lemma {:induction false} UpdateCriteria(f: Filters, k: FilterKey, raw: string)
    ensures Criteria(Update(f, k, raw))
      == if Trim(raw) == "" then Criteria(f) - {k} else Criteria(f)[k := Trim(raw)]
  {
    var t := Trim(raw);
    AssignKeys(f, k, Normalize(raw));
    if t == "" {
      AssignCriteria(f, k, Undefined);
    } else {
      AssignCriteria(f, k, Str(t));
    }
  }

  /** On the criteria, the spread sets or removes one key and keeps the others. */
  lemma {:induction false} AssignCriteria(f: Filters, k: FilterKey, v: FieldValue)
    ensures Criteria(Assign(f, k, v))
      == if IsSent(v) then Criteria(f)[k := v.s] else Criteria(f) - {k}
  {
    var after := Criteria(Assign(f, k, v));
    var before := Criteria(f);
    if IsSent(v) {
      forall x ensures x in after <==> x in before[k := v.s] {
        AssignCriteriaAt(f, k, v, x);
      }
      forall x | x in after ensures after[x] == before[k := v.s][x] {
        AssignCriteriaAt(f, k, v, x);
      }
      MapExt(after, before[k := v.s]);
    } else {
      forall x ensures x in after <==> x in before - {k} {
        AssignCriteriaAt(f, k, v, x);
      }
      forall x | x in after ensures after[x] == (before - {k})[x] {
        AssignCriteriaAt(f, k, v, x);
      }
      MapExt(after, before - {k});
    }
  }

  /** Two maps with the same keys and the same value at each key are equal. */
  lemma MapExt<K, V>(m: map<K, V>, n: map<K, V>)
    requires forall x :: x in m <==> x in n
    requires forall x | x in m :: m[x] == n[x]
    ensures m == n
  {
    assert m.Keys == n.Keys;
  }

  lemma {:induction false} AssignCriteriaAt(f: Filters, k: FilterKey, v: FieldValue, x: FilterKey)
    ensures x in Criteria(Assign(f, k, v)) <==> if x == k then IsSent(v) else x in Criteria(f)
    ensures x in Criteria(Assign(f, k, v)) ==>
      Criteria(Assign(f, k, v))[x] == if x == k then v.s else Criteria(f)[x]
  {
    CriteriaAt(Assign(f, k, v), x);
    CriteriaAt(f, x);
  }

  /** The criteria of an object whose first key does not recur are built from its tail. */
  lemma {:induction false} CriteriaCons(f: Filters)
    requires WellFormed(f) && f != []
    ensures f[0].key !in Criteria(f[1..])
    ensures Criteria(f) == if IsSent(f[0].value) then Criteria(f[1..])[f[0].key := f[0].value.s]
                            else Criteria(f[1..])
  {
    var k := f[0].key;
    var rest := f[1..];
    assert k !in Keys(rest) by {
      forall i | 0 <= i < |rest| ensures rest[i].key != k {
        assert rest[i] == f[i + 1];
      }
    }
    CriteriaAt(rest, k);
    var before := Criteria(rest);
    var after := Criteria(f);
    if IsSent(f[0].value) {
      forall x ensures x in after <==> x in before[k := f[0].value.s] {
        CriteriaAt(f, x);
        CriteriaAt(rest, x);
      }
      forall x | x in after ensures after[x] == before[k := f[0].value.s][x] {
        CriteriaAt(f, x);
        CriteriaAt(rest, x);
      }
      MapExt(after, before[k := f[0].value.s]);
    } else {
      forall x ensures x in after <==> x in before {
        CriteriaAt(f, x);
        CriteriaAt(rest, x);
      }
      forall x | x in after ensures after[x] == before[x] {
        CriteriaAt(f, x);
        CriteriaAt(rest, x);
      }
      MapExt(after, before);
    }
  }

  /**
   * On a canonical well-formed object (one reached by `update` and `reset`) the
   * count of active filters is the number of criteria set.
   */
  lemma {:induction false} ActiveCountIsCriteriaSize(f: Filters)
    requires WellFormed(f) && Canonical(f)
    ensures ActiveFilterCount(f) == |Criteria(f)|
  {
    if f == [] {
      assert Criteria(f) == map[];
    } else {
      assert WellFormed(f[1..]) && Canonical(f[1..]) by {
        assert forall i | 0 <= i < |f| - 1 :: f[1..][i] == f[i + 1];
      }
      ActiveCountIsCriteriaSize(f[1..]);
      CriteriaCons(f);
    }
  }
}
