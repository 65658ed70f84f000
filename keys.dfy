/** The string keys under which the grid remembers its lit cells: a cell
    `(x, y)` is stored as `x.toString() + ' ' + y.toString()` and read back
    with `split(' ')` and `parseInt`. Only cells with no negative coordinate
    are ever stored, so the numbers are written without a sign. */
module Keys {
  import opened Cells

  predicate IsDigit(ch: char)
  {
    '0' <= ch <= '9'
  }

  predicate AllDigits(s: string)
  {
    forall i :: 0 <= i < |s| ==> IsDigit(s[i])
  }

  function DigitChar(d: nat): (ch: char)
    requires d < 10
    ensures IsDigit(ch)
  {
    ('0' as int + d) as char
  }

  function DigitValue(ch: char): (d: nat)
    requires IsDigit(ch)
    ensures d < 10
  {
    ch as int - '0' as int
  }

  /** `n.toString()` for a non-negative integer: its decimal digits, most
      significant first, with no leading zero. */
  function NatToString(n: nat): (s: string)
    ensures |s| >= 1 && AllDigits(s)
    decreases n
  {
    if n < 10 then [DigitChar(n)] else NatToString(n / 10) + [DigitChar(n % 10)]
  }

  /** `parseInt` of a non-empty string of decimal digits. */
  function DigitsValue(s: string): nat
    requires AllDigits(s)
    decreases |s|
  {
    if |s| == 0 then 0 else DigitsValue(s[..|s| - 1]) * 10 + DigitValue(s[|s| - 1])
  }

  /** Reading back the decimal digits of `n` gives `n`. */
  lemma {:induction false} DigitsRoundTrip(n: nat)
    ensures DigitsValue(NatToString(n)) == n
    decreases n
  {
    var s := NatToString(n);
    if n >= 10 {
      assert s[..|s| - 1] == NatToString(n / 10);
      DigitsRoundTrip(n / 10);
    }
  }

  /** The index of the first space in `s`, if there is one. */
  function FirstSpace(s: string): (r: Option<nat>)
    ensures r.Some? ==> r.value < |s| && s[r.value] == ' ' && forall j :: 0 <= j < r.value ==> s[j] != ' '
    ensures r.None? ==> forall j :: 0 <= j < |s| ==> s[j] != ' '
  {
    if |s| == 0 then None
    else if s[0] == ' ' then Some(0)
    else match FirstSpace(s[1..])
      case None => None
      case Some(i) => Some(i + 1)
  }

  /** The key under which `setPixel` stores cell `c`. */
  function Key(c: Cell): string
    requires Drawable(c)
  {
    NatToString(c.x) + " " + NatToString(c.y)
  }

  /** `split(' ')` followed by `parseInt` of the first two parts, for the
      text before the first space and the text after it, both of which must
      be non-empty strings of digits. Text without a space, or with any
      character other than digits and that one space, is rejected; the cell
      read back from a key is given by `KeyRoundTrip`. */
  function ParseKey(s: string): (r: Option<Cell>)
    ensures r.Some? ==> Drawable(r.value)
    ensures (forall j :: 0 <= j < |s| ==> s[j] != ' ') ==> r.None?
    ensures r.Some? ==> forall j :: 0 <= j < |s| ==> IsDigit(s[j]) || s[j] == ' '
  {
    match FirstSpace(s)
    case None => None
    case Some(i) =>
      var head, tail := s[..i], s[i + 1..];
      if |head| > 0 && |tail| > 0 && AllDigits(head) && AllDigits(tail)
      then Some(Cell(DigitsValue(head), DigitsValue(tail)))
      else None
  }

  /** A string the grid can have stored: it parses, and it is the key of
      the cell it parses to. */
  predicate WellFormed(k: string)
  {
    var r := ParseKey(k);
    r.Some? && Key(r.value) == k
  }

  /** Parsing a key gives back the cell it was made from; so every key is
      well formed. */
  lemma KeyRoundTrip(c: Cell)
    requires Drawable(c)
    ensures ParseKey(Key(c)) == Some(c)
    ensures WellFormed(Key(c))
  {
    var xs, ys := NatToString(c.x), NatToString(c.y);
    var s := Key(c);
    assert s[|xs|] == ' ';
    assert forall j :: 0 <= j < |xs| ==> s[j] == xs[j];
    assert FirstSpace(s) == Some(|xs|);
    assert s[..|xs|] == xs;
    assert s[|xs| + 1..] == ys;
    DigitsRoundTrip(c.x);
    DigitsRoundTrip(c.y);
  }

  /** Distinct cells have distinct keys. */
  lemma KeyInjective(a: Cell, b: Cell)
    requires Drawable(a) && Drawable(b)
    ensures Key(a) == Key(b) <==> a == b
  {
    KeyRoundTrip(a);
    KeyRoundTrip(b);
  }

  /** The keys `setPixel` adds when called on each cell of `cells` in turn:
      one per cell with no negative coordinate. */
  ghost function DrawnKeys(cells: seq<Cell>): set<string>
    decreases |cells|
  {
    if |cells| == 0 then {}
    else
      var last := cells[|cells| - 1];
      DrawnKeys(cells[..|cells| - 1]) + if Drawable(last) then {Key(last)} else {}
  }

  /** `DrawnKeys` is the set of keys of the drawable cells of `cells`. */
  lemma {:induction false} DrawnKeysAreKeys(cells: seq<Cell>)
    ensures DrawnKeys(cells) == set c | c in cells && Drawable(c) :: Key(c)
    decreases |cells|
  {
    if |cells| > 0 {
      var front := cells[..|cells| - 1];
      DrawnKeysAreKeys(front);
      assert forall c :: c in cells <==> c in front || c == cells[|cells| - 1];
    }
  }

  /** A drawable cell's key is among the drawn keys exactly when the cell
      is among the cells. */
  lemma {:induction false} DrawnKeysMember(cells: seq<Cell>, c: Cell)
    requires Drawable(c)
    ensures Key(c) in DrawnKeys(cells) <==> c in cells
    decreases |cells|
  {
    if |cells| > 0 {
      var front, last := cells[..|cells| - 1], cells[|cells| - 1];
      DrawnKeysMember(front, c);
      assert c in cells <==> c in front || c == last;
      if Drawable(last) {
        KeyInjective(c, last);
      }
    }
  }

  /** `12 .toString() + ' ' + 3 .toString()`. */
  lemma ExampleKey()
    ensures Key(Cell(12, 3)) == "12 3"
    ensures ParseKey("12 3") == Some(Cell(12, 3))
    ensures ParseKey("12") == None
  {
  }
}
