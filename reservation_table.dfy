/**
 * The display logic of the reservations table: phone-number formatting,
 * the sort-column toggle, the guests ordering and the special-occasion label.
 */
module ReservationTable {
  import opened Wrappers
  import opened Reservations
  import Seqs

  // ---------------------------------------------------------------- phone numbers

  /** An ASCII decimal digit, the complement of the regular-expression class `\D`. */
  predicate IsDigit(c: char) {
    '0' <= c <= '9'
  }

  /** The input with every non-digit removed. */
  function Digits(phone: string): (d: string)
    ensures forall i :: 0 <= i < |d| ==> IsDigit(d[i])
    ensures forall i :: 0 <= i < |phone| && IsDigit(phone[i]) ==> phone[i] in d
    ensures |d| <= |phone|
  {
    Seqs.Filter(phone, IsDigit)
  }

  /** The digit string is exactly the input's digits, in their order and each as often as it occurs. */
  lemma DigitsExact(phone: string)
    ensures Seqs.IsSubsequence(Digits(phone), phone)
    ensures forall c :: multiset(Digits(phone))[c] == if IsDigit(c) then multiset(phone)[c] else 0
  {
    Seqs.FilterIsSubsequence(phone, IsDigit);
    Seqs.FilterCounts(phone, IsDigit);
  }

  /** The two digit counts the formatter recognises: ten, or eleven with a leading 1. */
  predicate IsNanpNumber(d: string) {
    |d| == 10 || (|d| == 11 && d[0] == '1')
  }

  /** The last ten digits written as `+1-AAA-EEE-NNNN`. */
  function Grouped(t: string): (s: string)
    requires |t| == 10
  {
    "+1-" + t[0..3] + "-" + t[3..6] + "-" + t[6..10]
  }

  function FormatPhoneNumber(phone: string): (formatted: string)
    ensures var d := Digits(phone);
      IsNanpNumber(d) ==> formatted == Grouped(d[|d| - 10..])
    ensures !IsNanpNumber(Digits(phone)) ==> formatted == "+1-" + phone
  {
    var numbers := Digits(phone);
    if |numbers| == 10 then
      "+1-" + numbers[0..3] + "-" + numbers[3..6] + "-" + numbers[6..10]
    else if |numbers| == 11 && numbers[0] == '1' then
      assert "+" + numbers[0..1] + "-" == "+1-";
      var t := numbers[1..];
      assert t[0..3] == numbers[1..4] && t[3..6] == numbers[4..7] && t[6..10] == numbers[7..11];
      "+" + numbers[0..1] + "-" + numbers[1..4] + "-" + numbers[4..7] + "-" + numbers[7..11]
    else
      "+1-" + phone
  }

  /** A string made of digits only is its own digit string. */
  lemma DigitsOfDigitString(s: string)
    requires forall i :: 0 <= i < |s| ==> IsDigit(s[i])
    ensures Digits(s) == s
  {
    Seqs.FilterKeepsAll(s, IsDigit);
  }

  /** An eleven-digit number with a leading 1 formats like its trailing ten digits. */
  lemma ElevenDigitsFormatAsTrailingTen(phone: string)
    requires |Digits(phone)| == 11 && Digits(phone)[0] == '1'
    ensures FormatPhoneNumber(phone) == FormatPhoneNumber(Digits(phone)[1..])
  {
    var d := Digits(phone);
    DigitsOfDigitString(d[1..]);
  }

  /** Only the digits matter for a recognised number: punctuation and spaces are ignored. */
  lemma FormatIgnoresNonDigits(a: string, b: string)
    requires Digits(a) == Digits(b) && IsNanpNumber(Digits(a))
    ensures FormatPhoneNumber(a) == FormatPhoneNumber(b)
  {
  }

  /** Digit stripping distributes over concatenation. */
  lemma DigitsConcat(x: string, y: string)
    ensures Digits(x + y) == Digits(x) + Digits(y)
  {
    Seqs.FilterConcat(x, y, IsDigit);
  }

  /** The fixed characters of a formatted number contribute only the country code. */
  lemma DigitsOfSeparators()
    ensures Digits("-") == "" && Digits("+1-") == "1"
  {
    DigitsConcat("+", "1-");
    DigitsConcat("1", "-");
    assert "+1-" == "+" + "1-" && "1-" == "1" + "-";
  }

  /** The digits of a formatted number are the country code followed by the ten digits. */
  lemma {:induction false} DigitsOfGrouped(t: string)
    requires |t| == 10 && forall i :: 0 <= i < |t| ==> IsDigit(t[i])
    ensures Digits(Grouped(t)) == "1" + t
  {
    var a, b, c := t[0..3], t[3..6], t[6..10];
    var g1 := "+1-" + a;
    var g2 := g1 + "-";
    var g3 := g2 + b;
    var g4 := g3 + "-";
    assert Digits(g1) == "1" + a by {
      DigitsOfSeparators();
      DigitsOfDigitString(a);
      DigitsConcat("+1-", a);
    }
    assert Digits(g3) == "1" + a + b by {
      DigitsOfSeparators();
      DigitsOfDigitString(b);
      DigitsConcat(g1, "-");
      DigitsConcat(g2, b);
    }
    assert Digits(g4 + c) == "1" + a + b + c by {
      DigitsOfSeparators();
      DigitsOfDigitString(c);
      DigitsConcat(g3, "-");
      DigitsConcat(g4, c);
    }
    assert Grouped(t) == g4 + c;
    assert t == a + b + c;
  }

  /** Formatting an already formatted number changes nothing. */
  lemma FormatIdempotent(phone: string)
    requires IsNanpNumber(Digits(phone))
    ensures FormatPhoneNumber(FormatPhoneNumber(phone)) == FormatPhoneNumber(phone)
  {
    var d := Digits(phone);
    var t := d[|d| - 10..];
    DigitsOfGrouped(t);
  }

  // ---------------------------------------------------------------- sorting

  datatype SortField = FullName | ReservationDate | Guests
  datatype Direction = Asc | Desc

  function Flip(d: Direction): (e: Direction)
    ensures e != d
  {
    if d == Asc then Desc else Asc
  }

  /** The column and direction after a header click. */
  function NextSort(field: Option<SortField>, dir: Direction, clicked: SortField): (next: (Option<SortField>, Direction))
    ensures next.0 == Some(clicked)
    ensures field == Some(clicked) ==> next.1 != dir
    ensures field != Some(clicked) ==> next.1 == Asc
  {
    if field == Some(clicked) then (Some(clicked), Flip(dir)) else (Some(clicked), Asc)
  }

  /** Clicking the same header twice restores the direction. */
  lemma SameHeaderTwiceRestores(dir: Direction, f: SortField)
    ensures var once := NextSort(Some(f), dir, f);
      NextSort(once.0, once.1, f) == (Some(f), dir)
  {
  }

  /** After any click, a second click on the same header reverses the direction. */
  lemma SecondClickReverses(field: Option<SortField>, dir: Direction, f: SortField)
    ensures var once := NextSort(field, dir, f);
      var twice := NextSort(once.0, once.1, f);
      twice.0 == Some(f) && twice.1 != once.1
  {
  }

  /** The sort state of the table: no column and ascending until a header is clicked. */
  class TableSort {
    var sortField: Option<SortField>
    var sortDirection: Direction

    constructor ()
      ensures sortField == None && sortDirection == Asc
    {
      sortField := None;
      sortDirection := Asc;
    }

    /** `handleSort`. */
    method HandleSort(field: SortField)
      modifies this
      ensures (sortField, sortDirection) == NextSort(old(sortField), old(sortDirection), field)
    {
      if sortField == Some(field) {
        sortDirection := Flip(sortDirection);
      } else {
        sortDirection := Asc;
      }
      sortField := Some(field);
    }
  }

  /** The guests comparator's key: a missing count sorts as 0. */
  function GuestsKey(r: Reservation): int {
    match r.guests
    case None => 0
    case Some(g) => g
  }

  /** The comparator allows `a` before `b`. */
  predicate InOrder(dir: Direction, a: int, b: int) {
    if dir == Asc then a <= b else a >= b
  }

  predicate SortedBy(s: seq<Reservation>, key: Reservation -> int, dir: Direction) {
    forall i, j :: 0 <= i < j < |s| ==> InOrder(dir, key(s[i]), key(s[j]))
  }

  /** Inserts `x` before the first element it may precede, so earlier equals stay first. */
  function InsertSorted(x: Reservation, s: seq<Reservation>, key: Reservation -> int, dir: Direction): (r: seq<Reservation>)
    ensures multiset(r) == multiset(s) + multiset{x}
  {
    if s == [] then [x]
    else if InOrder(dir, key(x), key(s[0])) then [x] + s
    else
      assert s == [s[0]] + s[1..];
      [s[0]] + InsertSorted(x, s[1..], key, dir)
  }

  /** A head that may precede every element of a sorted tail gives a sorted sequence. */
  lemma ConsKeepsOrder(h: Reservation, rest: seq<Reservation>, key: Reservation -> int, dir: Direction)
    requires SortedBy(rest, key, dir)
    requires forall j :: 0 <= j < |rest| ==> InOrder(dir, key(h), key(rest[j]))
    ensures SortedBy([h] + rest, key, dir)
  {
    var r := [h] + rest;
    forall i, j | 0 <= i < j < |r| ensures InOrder(dir, key(r[i]), key(r[j])) {
      assert r[j] == rest[j - 1];
      if i > 0 {
        assert r[i] == rest[i - 1];
      }
    }
  }

  /** Inserting into a sorted sequence keeps it sorted. */
  lemma {:induction false} InsertSortedKeepsOrder(x: Reservation, s: seq<Reservation>, key: Reservation -> int, dir: Direction)
    requires SortedBy(s, key, dir)
    ensures SortedBy(InsertSorted(x, s, key, dir), key, dir)
  {
    if s == [] {
    } else if InOrder(dir, key(x), key(s[0])) {
      forall j | 0 <= j < |s| ensures InOrder(dir, key(x), key(s[j])) {
        if j > 0 {
          assert InOrder(dir, key(s[0]), key(s[j]));
        }
      }
      ConsKeepsOrder(x, s, key, dir);
    } else {
      var tail := s[1..];
      assert SortedBy(tail, key, dir) by {
        forall i, j | 0 <= i < j < |tail| ensures InOrder(dir, key(tail[i]), key(tail[j])) {
          assert tail[i] == s[i + 1] && tail[j] == s[j + 1];
        }
      }
      var rest := InsertSorted(x, tail, key, dir);
      InsertSortedKeepsOrder(x, tail, key, dir);
      forall j | 0 <= j < |rest| ensures InOrder(dir, key(s[0]), key(rest[j])) {
        var y := rest[j];
        assert y in multiset(rest);
        if y != x {
          assert y in multiset(tail);
          var k :| 0 <= k < |tail| && tail[k] == y;
          assert InOrder(dir, key(s[0]), key(s[k + 1]));
        }
      }
      ConsKeepsOrder(s[0], rest, key, dir);
    }
  }

  /** A stable ordering by `key`: the model of `Array.prototype.sort` with a key comparator. */
  function SortBy(s: seq<Reservation>, key: Reservation -> int, dir: Direction): (r: seq<Reservation>)
    ensures multiset(r) == multiset(s)
    ensures SortedBy(r, key, dir)
  {
    if s == [] then []
    else
      assert s == [s[0]] + s[1..];
      InsertSortedKeepsOrder(s[0], SortBy(s[1..], key, dir), key, dir);
      InsertSorted(s[0], SortBy(s[1..], key, dir), key, dir)
  }

  /**
   * The comparator key for a column. Guests are compared by count; the date
   * and name columns use the key the caller supplies for them.
   */
  function SortKey(field: SortField, otherKey: Reservation -> int): Reservation -> int {
    if field == Guests then GuestsKey else otherKey
  }

  /** `sortedReservations`: the rows in the order the table shows them. */
  function SortedReservations(list: seq<Reservation>, field: Option<SortField>, dir: Direction,
                              otherKey: Reservation -> int): (shown: seq<Reservation>)
    ensures field.None? ==> shown == list
    ensures multiset(shown) == multiset(list)
    ensures field.Some? ==> SortedBy(shown, SortKey(field.value, otherKey), dir)
  {
    if field.None? then list else SortBy(list, SortKey(field.value, otherKey), dir)
  }

  /** Sorting by guests orders the counts, a missing count standing for 0. */
  lemma GuestsSortOrdersCounts(list: seq<Reservation>, dir: Direction, otherKey: Reservation -> int)
    ensures var shown := SortedReservations(list, Some(Guests), dir, otherKey);
      forall i, j :: 0 <= i < j < |shown| ==>
        var gi := if shown[i].guests.Some? then shown[i].guests.value else 0;
        var gj := if shown[j].guests.Some? then shown[j].guests.value else 0;
        if dir == Asc then gi <= gj else gi >= gj
  {
    var shown := SortedReservations(list, Some(Guests), dir, otherKey);
    assert SortedBy(shown, GuestsKey, dir);
  }

  // ---------------------------------------------------------------- special occasion

  /** Upper-casing of one character, for the ASCII letters. */
  function ToUpper(c: char): (u: char)
    // no lower-case letter survives
    ensures !('a' <= u <= 'z')
    // letters stay letters and nothing else becomes one
    ensures 'A' <= u <= 'Z' <==> 'a' <= c <= 'z' || 'A' <= c <= 'Z'
    // only lower-case letters change
    ensures u == c <==> !('a' <= c <= 'z')
    // a lower-case letter becomes the capital at the same place in the alphabet
    ensures 'a' <= c <= 'z' ==> u == "ABCDEFGHIJKLMNOPQRSTUVWXYZ"[c as int - 'a' as int]
  {
    if 'a' <= c <= 'z' then (c as int - 32) as char else c
  }

  /** The special-occasion cell: capitalised, or `---` when there is none. */
  function OccasionLabel(occasion: Option<string>): (cell: string)
    ensures occasion.None? || occasion.value == [] ==> cell == "---"
    ensures occasion.Some? && occasion.value != [] ==>
      |cell| == |occasion.value| && cell[0] == ToUpper(occasion.value[0]) &&
      cell[1..] == occasion.value[1..]
  {
    if occasion.None? || occasion.value == [] then "---"
    else [ToUpper(occasion.value[0])] + occasion.value[1..]
  }

  /** A label shown as an occasion is shown unchanged. */
  lemma OccasionLabelIdempotent(occasion: Option<string>)
    ensures OccasionLabel(Some(OccasionLabel(occasion))) == OccasionLabel(occasion)
  {
  }
}
