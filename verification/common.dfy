/** Shared building blocks of the model: optional values, column values,
    order-preserving selection with its partition law, and the few Python
    string behaviours the application relies on (truthiness, `str.strip`,
    lexicographic `<` on strings, decimal rendering of counts). */
module Common {

  /** Python's `None` or a value. */
  datatype Option<+T> = None | Some(value: T)

  /** A value, or the message of an exception the source raises. */
  datatype Result<+T> = Ok(value: T) | Err(error: string)

  /** A column value in a stored or displayed row: SQL NULL or text. */
  datatype Value = Null | Text(s: string)

  /** A database row or a dict built from one: column name to value. */
  type Row = map<string, Value>

  /** `row.get(k)`: a missing column reads as NULL. */
  function Get(row: Row, k: string): Value {
    if k in row then row[k] else Null
  }

  /** Python truthiness of an optional string: `None` and `""` are falsy. */
  predicate Truthy(v: Option<string>) {
    v.Some? && v.value != ""
  }

  /** `v or ''`. */
  function OrEmpty(v: Option<string>): (r: string)
    ensures Truthy(v) ==> r == v.value
    ensures !Truthy(v) ==> r == ""
  {
    if v.Some? then v.value else ""
  }

  /** `s or None`. */
  function EmptyToNone(s: string): (r: Option<string>)
    ensures r.None? <==> s == ""
    ensures r.Some? ==> r.value == s
  {
    if s == "" then None else Some(s)
  }

  /** `x or 0` on an optional count (SQL `SUM` over no rows yields NULL). */
  function OrZero(v: Option<int>): int {
    if v.Some? then v.value else 0
  }

  function Min(a: int, b: int): int {
    if a <= b then a else b
  }

  predicate Distinct<T(==)>(s: seq<T>) {
    forall i, j :: 0 <= i < j < |s| ==> s[i] != s[j]
  }

  // ---------------------------------------------------------------------
  // Order-preserving selection: the buckets of every "by status" view.
  // ---------------------------------------------------------------------

  /** The elements of `s` whose key is `k`, in their original order. */
  function Select<T, K(==)>(s: seq<T>, key: T -> K, k: K): (r: seq<T>)
    ensures |r| <= |s|
    ensures forall i :: 0 <= i < |r| ==> key(r[i]) == k
    ensures forall i :: 0 <= i < |r| ==> r[i] in s
    ensures forall i :: 0 <= i < |s| && key(s[i]) == k ==> s[i] in r
    decreases |s|
  {
    if s == [] then []
    else
      var init := s[..|s| - 1];
      assert s == init + [s[|s| - 1]];
      Select(init, key, k) + (if key(s[|s| - 1]) == k then [s[|s| - 1]] else [])
  }

  lemma SelectSnoc<T, K>(s: seq<T>, x: T, key: T -> K, k: K)
    ensures Select(s + [x], key, k) == Select(s, key, k) + (if key(x) == k then [x] else [])
  {
    assert (s + [x])[..|s|] == s;
  }

  /** Selection distributes over concatenation. */
  lemma {:induction false} SelectAppend<T, K>(a: seq<T>, b: seq<T>, key: T -> K, k: K)
    ensures Select(a + b, key, k) == Select(a, key, k) + Select(b, key, k)
    decreases |b|
  {
    if b == [] {
      assert a + b == a;
    } else {
      var init := b[..|b| - 1];
      var y := b[|b| - 1];
      assert b == init + [y];
      assert a + b == (a + init) + [y];
      SelectAppend(a, init, key, k);
      SelectSnoc(a + init, y, key, k);
      SelectSnoc(init, y, key, k);
    }
  }

  lemma SelectCons<T, K>(x: T, s: seq<T>, key: T -> K, k: K)
    ensures Select([x] + s, key, k) == (if key(x) == k then [x] else []) + Select(s, key, k)
  {
    SelectAppend([x], s, key, k);
    assert [x] == [] + [x];
    SelectSnoc([], x, key, k);
  }

  /** `x` occurs in `s` at a position before some occurrence of `y`. */
  ghost predicate ComesBefore<T>(s: seq<T>, x: T, y: T) {
    exists a, b :: 0 <= a < b < |s| && s[a] == x && s[b] == y
  }

  /** Selection keeps the original relative order: any two selected elements
      come from positions in the same order. */
  lemma {:induction false} SelectKeepsOrder<T, K>(s: seq<T>, key: T -> K, k: K)
    ensures forall i, j :: 0 <= i < j < |Select(s, key, k)| ==>
      ComesBefore(s, Select(s, key, k)[i], Select(s, key, k)[j])
    decreases |s|
  {
    if s != [] {
      var init := s[..|s| - 1];
      var x := s[|s| - 1];
      assert s == init + [x];
      SelectKeepsOrder(init, key, k);
      SelectSnoc(init, x, key, k);
      var r0 := Select(init, key, k);
      var r := Select(s, key, k);
      forall i, j | 0 <= i < j < |r|
        ensures ComesBefore(s, r[i], r[j])
      {
        if j < |r0| {
          assert r[i] == r0[i] && r[j] == r0[j];
          assert ComesBefore(init, r0[i], r0[j]);
          var a, b :| 0 <= a < b < |init| && init[a] == r0[i] && init[b] == r0[j];
          assert s[a] == init[a] && s[b] == init[b];
        } else {
          assert r[i] == r0[i] && r[j] == x;
          assert r0[i] in init;
          var a :| 0 <= a < |init| && init[a] == r0[i];
          assert s[a] == init[a] && s[|s| - 1] == x;
        }
      }
    }
  }

  /** Selecting from a sequence without repetitions yields one without. */
  lemma {:induction false} SelectDistinct<T, K>(s: seq<T>, key: T -> K, k: K)
    requires Distinct(s)
    ensures Distinct(Select(s, key, k))
    decreases |s|
  {
    if s != [] {
      var init := s[..|s| - 1];
      var x := s[|s| - 1];
      assert s == init + [x];
      assert Distinct(init) by {
        forall i, j | 0 <= i < j < |init| ensures init[i] != init[j] {
          assert init[i] == s[i] && init[j] == s[j];
        }
      }
      SelectDistinct(init, key, k);
      SelectSnoc(init, x, key, k);
      var r0 := Select(init, key, k);
      assert x !in init by {
        forall i | 0 <= i < |init| ensures init[i] != x {
          assert init[i] == s[i];
        }
      }
      forall i | 0 <= i < |r0| ensures r0[i] != x {
        assert r0[i] in init;
      }
    }
  }

  /** Position of the first occurrence of `x` in `s`, or `|s|` when absent. */
  function IndexOf<T(==)>(s: seq<T>, x: T): (r: nat)
    ensures r <= |s|
    ensures r < |s| <==> x in s
    ensures r < |s| ==> s[r] == x
    ensures forall i :: 0 <= i < r ==> s[i] != x
    decreases |s|
  {
    if s == [] then 0 else if s[0] == x then 0 else 1 + IndexOf(s[1..], x)
  }

  /** A loop that raises at its first failing step: every step's value in
      order, or the first step's error. */
  function Collect<T>(rs: seq<Result<T>>): (r: Result<seq<T>>)
    ensures r.Ok? ==> |r.value| == |rs|
    decreases |rs|
  {
    if rs == [] then Ok([])
    else match rs[0]
      case Err(e) => Err(e)
      case Ok(x) =>
        var rest := Collect(rs[1..]);
        if rest.Err? then Err(rest.error) else Ok([x] + rest.value)
  }

  /** The loop succeeds exactly when every step does, and then holds each
      step's value at the step's position. */
  lemma {:induction false} CollectSpec<T>(rs: seq<Result<T>>)
    ensures Collect(rs).Ok? ==> forall i :: 0 <= i < |rs| ==> rs[i] == Ok(Collect(rs).value[i])
    ensures Collect(rs).Err? <==> exists i :: 0 <= i < |rs| && rs[i].Err?
    decreases |rs|
  {
    if rs != [] {
      var tail := rs[1..];
      CollectSpec(tail);
      if rs[0].Ok? {
        if Collect(tail).Err? {
          var j :| 0 <= j < |tail| && tail[j].Err?;
          assert rs[j + 1] == tail[j];
        } else {
          var r := Collect(rs);
          assert r.value == [rs[0].value] + Collect(tail).value;
          forall i | 0 <= i < |rs| ensures rs[i] == Ok(r.value[i]) {
            if i > 0 {
              assert rs[i] == tail[i - 1];
            }
          }
        }
      }
    }
  }

  /** Number of elements of `s` with property `p`: a `SUM(CASE WHEN ... THEN 1
      ELSE 0 END)` over the rows. */
  function CountWhere<T>(s: seq<T>, p: T -> bool): (n: nat)
    ensures n <= |s|
    decreases |s|
  {
    if s == [] then 0 else CountWhere(s[..|s| - 1], p) + (if p(s[|s| - 1]) then 1 else 0)
  }

  /** Counting one more element adds one exactly when it qualifies. */
  lemma CountWhereSnoc<T>(s: seq<T>, x: T, p: T -> bool)
    ensures CountWhere(s + [x], p) == CountWhere(s, p) + (if p(x) then 1 else 0)
  {
    assert (s + [x])[..|s|] == s;
  }

  /** Number of elements of `s` whose key is one of `ks`. */
  function CountKeyIn<T, K(==)>(s: seq<T>, key: T -> K, ks: seq<K>): nat
    decreases |s|
  {
    if s == [] then 0
    else CountKeyIn(s[..|s| - 1], key, ks) + (if key(s[|s| - 1]) in ks then 1 else 0)
  }

  /** Total size of the buckets for keys `ks`. */
  function SumSelected<T, K(==)>(s: seq<T>, key: T -> K, ks: seq<K>): nat
    decreases |ks|
  {
    if ks == [] then 0 else |Select(s, key, ks[0])| + SumSelected(s, key, ks[1..])
  }

  /** Number of occurrences of `v` in `ks`. */
  function Occurrences<K(==)>(ks: seq<K>, v: K): nat
    decreases |ks|
  {
    if ks == [] then 0 else (if ks[0] == v then 1 else 0) + Occurrences(ks[1..], v)
  }

  lemma {:induction false} OccurrencesOfDistinct<K>(ks: seq<K>, v: K)
    requires Distinct(ks)
    ensures Occurrences(ks, v) == if v in ks then 1 else 0
    decreases |ks|
  {
    if ks != [] {
      OccurrencesOfDistinct(ks[1..], v);
      if ks[0] == v {
        assert v !in ks[1..] by {
          forall j | 0 <= j < |ks[1..]| ensures ks[1..][j] != v {
            assert ks[1..][j] == ks[j + 1];
          }
        }
      } else {
        assert v in ks <==> v in ks[1..] by {
          assert ks == [ks[0]] + ks[1..];
        }
      }
    }
  }

  lemma {:induction false} SumSelectedSnoc<T, K>(s: seq<T>, x: T, key: T -> K, ks: seq<K>)
    ensures SumSelected(s + [x], key, ks) == SumSelected(s, key, ks) + Occurrences(ks, key(x))
    decreases |ks|
  {
    if ks != [] {
      SelectSnoc(s, x, key, ks[0]);
      SumSelectedSnoc(s, x, key, ks[1..]);
    }
  }

  /** Buckets over distinct keys partition the elements whose key is one of them:
      every such element lands in exactly one bucket. */
  lemma {:induction false} SelectPartition<T, K>(s: seq<T>, key: T -> K, ks: seq<K>)
    requires Distinct(ks)
    ensures SumSelected(s, key, ks) == CountKeyIn(s, key, ks)
    decreases |s|
  {
    if s == [] {
      SumSelectedEmpty(key, ks);
    } else {
      var init := s[..|s| - 1];
      var x := s[|s| - 1];
      assert s == init + [x];
      SelectPartition(init, key, ks);
      SumSelectedSnoc(init, x, key, ks);
      OccurrencesOfDistinct(ks, key(x));
    }
  }

  lemma {:induction false} SumSelectedEmpty<T, K>(key: T -> K, ks: seq<K>)
    ensures SumSelected([], key, ks) == 0
    decreases |ks|
  {
    if ks != [] {
      SumSelectedEmpty(key, ks[1..]);
    }
  }

  /** When every key is listed, the count is the whole sequence. */
  lemma {:induction false} CountKeyInAll<T, K>(s: seq<T>, key: T -> K, ks: seq<K>)
    requires forall i :: 0 <= i < |s| ==> key(s[i]) in ks
    ensures CountKeyIn(s, key, ks) == |s|
    decreases |s|
  {
    if s != [] {
      CountKeyInAll(s[..|s| - 1], key, ks);
    }
  }

  // ---------------------------------------------------------------------
  // Python string behaviour.
  // ---------------------------------------------------------------------

  /** The characters for which Python's `str.isspace` holds, which are the
      ones `str.strip()` removes: the ASCII controls and space, NEL, the
      no-break space, the Ogham space mark, the spaces from en quad to hair
      space, the line and paragraph separators, the narrow no-break space,
      the medium mathematical space and the ideographic space. */
  predicate IsSpace(c: char) {
    c == ' ' || c == '\t' || c == '\n' || c == '\r' || c == '\U{0B}' || c == '\U{0C}'
    || c == '\U{1C}' || c == '\U{1D}' || c == '\U{1E}' || c == '\U{1F}'
    || c == '\U{85}' || c == '\U{A0}' || c == '\U{1680}' || ('\U{2000}' <= c <= '\U{200A}')
    || c == '\U{2028}' || c == '\U{2029}' || c == '\U{202F}' || c == '\U{205F}' || c == '\U{3000}'
  }

  function TrimLeft(s: string): (r: string)
    ensures |r| <= |s| && r == s[|s| - |r|..]
    ensures r == [] || !IsSpace(r[0])
    ensures forall i :: 0 <= i < |s| - |r| ==> IsSpace(s[i])
    decreases |s|
  {
    if s != [] && IsSpace(s[0]) then
      var t := TrimLeft(s[1..]);
      assert s[|s| - |t|..] == s[1..][|s| - 1 - |t|..];
      assert forall i :: 1 <= i < |s| - |t| ==> s[i] == s[1..][i - 1];
      t
    else s
  }

  function TrimRight(s: string): (r: string)
    ensures |r| <= |s| && r == s[..|r|]
    ensures r == [] || !IsSpace(r[|r| - 1])
    ensures forall i :: |r| <= i < |s| ==> IsSpace(s[i])
    decreases |s|
  {
    if s != [] && IsSpace(s[|s| - 1]) then TrimRight(s[..|s| - 1]) else s
  }

  /** `s.strip()`: the longest slice of `s` with no whitespace at either end. */
  function Strip(s: string): (r: string)
    ensures exists i, j :: (0 <= i <= j <= |s| && r == s[i..j]
      && (forall k :: 0 <= k < i ==> IsSpace(s[k]))
      && (forall k :: j <= k < |s| ==> IsSpace(s[k])))
    ensures r == [] || (!IsSpace(r[0]) && !IsSpace(r[|r| - 1]))
  {
    var l := TrimLeft(s);
    var r := TrimRight(l);
    var i := |s| - |l|;
    assert r == s[i..i + |r|];
    r
  }

  /** A trailing no-break space is stripped, as Python strips it. */
  lemma StripsNoBreakSpace()
    ensures Strip("Dune\U{A0}") == "Dune"
  {
    var s := "Dune\U{A0}";
    assert s[0] == 'D' && !IsSpace(s[0]);
    assert TrimLeft(s) == s;
    assert s[|s| - 1] == '\U{A0}' && s[..|s| - 1] == "Dune";
    assert TrimRight(s) == TrimRight("Dune");
    assert "Dune"[3] == 'e' && !IsSpace('e');
    assert TrimRight("Dune") == "Dune";
  }

  /** Text made only of whitespace strips to the empty string. */
  lemma StripAllSpace(s: string)
    requires forall k :: 0 <= k < |s| ==> IsSpace(s[k])
    ensures Strip(s) == ""
  {
  }

  /** Python's `a < b` on strings: lexicographic by code point. */
  function LexLess(a: string, b: string): bool
    decreases |a|
  {
    if a == [] then b != []
    else if b == [] then false
    else if a[0] != b[0] then a[0] < b[0]
    else LexLess(a[1..], b[1..])
  }

  function DigitChar(d: int): char
    requires 0 <= d < 10
  {
    "0123456789"[d]
  }

  /** `str(n)` for a count. */
  function NatToString(n: nat): string
    decreases n
  {
    if n < 10 then [DigitChar(n)] else NatToString(n / 10) + [DigitChar(n % 10)]
  }
}
