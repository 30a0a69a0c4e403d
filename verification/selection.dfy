/** The piece choice in `Tetris::create_new_tetrimino` (src/tetris.rs): draw a number
    mod 7 and draw once more if it repeats the previous choice. The random bytes are
    parameters and the hidden `static mut PREV` is an explicit selector state. */
module Selection {
  import opened Cells

  /** The seven piece kinds, in the order `create_new_tetrimino` numbers them. */
  datatype Kind = I | L | J | O | S | Z | T

  /** The kind a choice in 0..7 spawns. */
  function KindOf(n: u8): Kind
    requires n < 7
  {
    match n
    case 0 => I
    case 1 => L
    case 2 => J
    case 3 => O
    case 4 => S
    case 5 => Z
    case _ => T
  }

  /** The number that spawns a kind. */
  function IndexOf(k: Kind): (n: u8)
    ensures n < 7
    ensures KindOf(n) == k
  {
    match k
    case I => 0
    case L => 1
    case J => 2
    case O => 3
    case S => 4
    case Z => 5
    case T => 6
  }

  /** Different choices spawn different kinds. */
  lemma KindOfInjective(m: u8, n: u8)
    requires m < 7 && n < 7
    ensures KindOf(m) == KindOf(n) ==> m == n
    ensures IndexOf(KindOf(n)) == n
  {
  }

  /** The remembered previous choice; 7 when the program starts, a value no draw can produce.
      The code never resets it, so it carries over from one game to the next. */
  datatype Selector = Selector(prev: u8)

  /** The selector state when the program starts. */
  const Initial: Selector := Selector(7)

  /** A choice and the selector state after it. */
  datatype Choice = Choice(index: u8, next: Selector)

  /** Choose from two random bytes: take the first draw mod 7 unless it equals the previous
      choice, in which case take the second draw mod 7 whatever it is. */
  function Select(s: Selector, r1: u8, r2: u8): (c: Choice)
    ensures c.index < 7
    ensures c.next.prev == c.index
    ensures c.index == r1 % 7 || c.index == r2 % 7
    ensures r1 % 7 != s.prev ==> c.index == r1 % 7
    ensures c.index == s.prev <==> r1 % 7 == s.prev && r2 % 7 == s.prev
  {
    var first := r1 % 7;
    var chosen := if s.prev == first then r2 % 7 else first;
    Choice(chosen, Selector(chosen))
  }

  /** `create_new_tetrimino` as a function of the selector state and the two random bytes. */
  function CreateNewTetrimino(s: Selector, r1: u8, r2: u8): (res: (Kind, Selector))
    ensures res.1 == Select(s, r1, r2).next
    ensures res.1.prev < 7 && res.0 == KindOf(res.1.prev)
    ensures IndexOf(res.0) == res.1.prev
  {
    var c := Select(s, r1, r2);
    KindOfInjective(c.index, c.index);
    (KindOf(c.index), c.next)
  }

  /** The first choice after the program starts is never redrawn. */
  lemma FirstChoiceIsFirstDraw(r1: u8, r2: u8)
    ensures Select(Initial, r1, r2).index == r1 % 7
  {
  }

  /** Whatever came before, every kind can come next, repeats included. */
  lemma EveryKindReachable(s: Selector, k: Kind)
    ensures exists r1: u8, r2: u8 :: CreateNewTetrimino(s, r1, r2).0 == k
  {
    var n := IndexOf(k);
    assert CreateNewTetrimino(s, n, n).0 == k;
  }
}
