/** The loops that generate the digit tables of the decimal printer. Tables start out filled with null characters. */
module TableGen {
  import opened NatMath
  import opened Jiaendu

  datatype Kind = Table2Of | Table3Of | Table4Of | Table5Of

  function Rows(kind: Kind): nat
  {
    match kind
    case Table2Of => 100
    case Table4Of => 10000
    case _ => 1000
  }

  function Width(kind: Kind): nat
  {
    if kind == Table2Of then 2 else 4
  }

  /** Row n of a table; a row of table3 has an unused fourth character. */
  function Entry(kind: Kind, n: nat): (row: string)
    requires n < Rows(kind)
    ensures |row| == Width(kind)
  {
    match kind
    case Table2Of => Table2(n)
    case Table3Of => Table3(n) + ['\0']
    case Table4Of => Table4(n)
    case Table5Of => Table5(n)
  }

  predicate Shaped(gen: array2<char>, kind: Kind)
  {
    gen.Length0 == Rows(kind) && gen.Length1 == Width(kind)
  }

  /** The first n rows are filled in and the others are still null. */
  ghost predicate Done(gen: array2<char>, kind: Kind, n: nat)
    requires Shaped(gen, kind)
    reads gen
  {
    forall t, c :: 0 <= t < Rows(kind) && 0 <= c < Width(kind) ==> gen[t, c] == if t < n then Entry(kind, t)[c] else '\0'
  }

  method NewTable(kind: Kind) returns (gen: array2<char>)
    ensures fresh(gen) && Shaped(gen, kind) && Done(gen, kind, 0)
  {
    gen := new char[Rows(kind), Width(kind)]((a, b) => '\0');
  }

  /** Stores the digits of one row from its front. */
  method SetRow(gen: array2<char>, kind: Kind, n: nat, digits: string)
    requires Shaped(gen, kind) && n < Rows(kind) && Done(gen, kind, n)
    requires |digits| <= Width(kind) && digits == Entry(kind, n)[..|digits|]
    requires forall c :: |digits| <= c < Width(kind) ==> Entry(kind, n)[c] == '\0'
    modifies gen
    ensures Done(gen, kind, n + 1)
  {
    hide Entry;
    forall c | 0 <= c < |digits| {
      gen[n, c] := digits[c];
    }
  }

  lemma Digits2(i: nat, j: nat)
    requires i < 10 && j < 10
    ensures Table2(10 * i + j) == [Digit(i), Digit(j)]
    ensures 1 <= i ==> Table5(10 * i + j) == [Digit(i), Digit(j), '\0', '\0']
  {
    assert (10 * i + j) / 10 == i && (10 * i + j) % 10 == j;
  }

  lemma Digits3(i: nat, j: nat, k: nat)
    requires i < 10 && j < 10 && k < 10
    ensures Table3(100 * i + 10 * j + k) == [Digit(i), Digit(j), Digit(k)]
    ensures 1 <= i ==> Table5(100 * i + 10 * j + k) == [Digit(i), Digit(j), Digit(k), '\0']
  {
    var n := 100 * i + 10 * j + k;
    assert n / 100 == i && n / 10 == 10 * i + j && n % 10 == k;
  }

  lemma Digits4(i: nat, j: nat, k: nat, m: nat)
    requires i < 10 && j < 10 && k < 10 && m < 10
    ensures Table4(1000 * i + 100 * j + 10 * k + m) == [Digit(i), Digit(j), Digit(k), Digit(m)]
  {
    var n := 1000 * i + 100 * j + 10 * k + m;
    DivModUnique(n, 1000, i, 100 * j + 10 * k + m);
    DivModUnique(n, 100, 10 * i + j, 10 * k + m);
    DivModUnique(n, 10, 100 * i + 10 * j + k, m);
    DivModUnique(10 * i + j, 10, i, j);
    DivModUnique(100 * i + 10 * j + k, 10, 10 * i + j, k);
    assert Table4(n) == [Digit(n / 1000), Digit(n / 100 % 10), Digit(n / 10 % 10), Digit(n % 10)];
  }

  method CalculateTable2() returns (gen: array2<char>)
    ensures fresh(gen) && Shaped(gen, Table2Of) && Done(gen, Table2Of, 100)
  {
    hide Done, Table2;
    gen := NewTable(Table2Of);
    for i := 0 to 10
      invariant Done(gen, Table2Of, 10 * i)
    {
      for j := 0 to 10
        invariant Done(gen, Table2Of, 10 * i + j)
      {
        Digits2(i, j);
        SetRow(gen, Table2Of, 10 * i + j, [Digit(i), Digit(j)]);
      }
    }
  }

  method CalculateTable3() returns (gen: array2<char>)
    ensures fresh(gen) && Shaped(gen, Table3Of) && Done(gen, Table3Of, 1000)
  {
    hide Done, Table3;
    gen := NewTable(Table3Of);
    for i := 0 to 10
      invariant Done(gen, Table3Of, 100 * i)
    {
      for j := 0 to 10
        invariant Done(gen, Table3Of, 100 * i + 10 * j)
      {
        for k := 0 to 10
          invariant Done(gen, Table3Of, 100 * i + 10 * j + k)
        {
          Digits3(i, j, k);
          SetRow(gen, Table3Of, 100 * i + 10 * j + k, [Digit(i), Digit(j), Digit(k)]);
        }
      }
    }
  }

  method CalculateTable4() returns (gen: array2<char>)
    ensures fresh(gen) && Shaped(gen, Table4Of) && Done(gen, Table4Of, 10000)
  {
    hide Done, Table4;
    gen := NewTable(Table4Of);
    for i := 0 to 10
      invariant Done(gen, Table4Of, 1000 * i)
    {
      for j := 0 to 10
        invariant Done(gen, Table4Of, 1000 * i + 100 * j)
      {
        for k := 0 to 10
          invariant Done(gen, Table4Of, 1000 * i + 100 * j + 10 * k)
        {
          for m := 0 to 10
            invariant Done(gen, Table4Of, 1000 * i + 100 * j + 10 * k + m)
          {
            Digits4(i, j, k, m);
            SetRow(gen, Table4Of, 1000 * i + 100 * j + 10 * k + m, [Digit(i), Digit(j), Digit(k), Digit(m)]);
          }
        }
      }
    }
  }

  /** Three runs of loops: one digit, two digits, three digits, none of them with a leading zero but zero itself. */
  method CalculateTable5() returns (gen: array2<char>)
    ensures fresh(gen) && Shaped(gen, Table5Of) && Done(gen, Table5Of, 1000)
  {
    gen := NewTable(Table5Of);
    for i := 0 to 10
      invariant Done(gen, Table5Of, i)
    {
      SetRow(gen, Table5Of, i, [Digit(i)]);
    }
    FillTable5(gen);
  }

  method FillTable5(gen: array2<char>)
    requires Shaped(gen, Table5Of) && Done(gen, Table5Of, 10)
    modifies gen
    ensures Done(gen, Table5Of, 1000)
  {
    hide Done, Table5;
    for i := 1 to 10
      invariant Done(gen, Table5Of, 10 * i)
    {
      for j := 0 to 10
        invariant Done(gen, Table5Of, 10 * i + j)
      {
        Digits2(i, j);
        SetRow(gen, Table5Of, 10 * i + j, [Digit(i), Digit(j)]);
      }
    }
    for i := 1 to 10
      invariant Done(gen, Table5Of, 100 * i)
    {
      for j := 0 to 10
        invariant Done(gen, Table5Of, 100 * i + 10 * j)
      {
        for k := 0 to 10
          invariant Done(gen, Table5Of, 100 * i + 10 * j + k)
        {
          Digits3(i, j, k);
          SetRow(gen, Table5Of, 100 * i + 10 * j + k, [Digit(i), Digit(j), Digit(k)]);
        }
      }
    }
  }

  method CalculateOffset() returns (gen: array<nat>)
    ensures fresh(gen) && gen.Length == 1000 && forall k :: 0 <= k < 1000 ==> gen[k] == Offset(k)
  {
    gen := new nat[1000](_ => 0);
    for i := 0 to 10
      invariant forall k :: 0 <= k < i ==> gen[k] == Offset(k)
    {
      gen[i] := 1;
    }
    for i := 10 to 100
      invariant forall k :: 0 <= k < i ==> gen[k] == Offset(k)
    {
      gen[i] := 2;
    }
    for i := 100 to 1000
      invariant forall k :: 0 <= k < i ==> gen[k] == Offset(k)
    {
      gen[i] := 3;
    }
  }
}
