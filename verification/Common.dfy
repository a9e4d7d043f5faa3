/** Values shared by every component of the model. */
module Common {

  datatype Option<+T> = None | Some(value: T)

  /** The number of values of a 64-bit word. */
  const WORD: nat := 0x1_0000_0000_0000_0000

  /** The bytes hashed into a Fiat-Shamir challenge, one number per scalar, point or index. */
  type Transcript = seq<int>

  /** `cvHashToFr`: an arbitrary function of a domain label and a transcript. */
  type Oracle = (string, Transcript) -> int

  lemma NonEmpty(s: set<int>)
    requires s != {}
    ensures exists x :: x in s
  {
    assert (forall x :: x !in s) ==> s == {};
  }

  /** The numbers `a .. b-1`. */
  function Range(a: nat, b: nat): (r: set<nat>)
    requires a <= b
    ensures |r| == b - a && forall x :: x in r <==> a <= x < b
    decreases b - a
  {
    if a == b then {} else Range(a, b - 1) + {b - 1}
  }

  lemma {:induction false} SubsetSize(a: set<int>, b: set<int>)
    requires forall x :: x in a ==> x in b
    ensures |a| <= |b|
    decreases a
  {
    if a != {} {
      assert (forall x :: x !in a) ==> a == {};
      var x :| x in a;
      SubsetSize(a - {x}, b - {x});
    }
  }
}
