/** Small things that several models share: optional values, overwriting and removing parts
    of a sequence, and joining the pieces of one. */
module Seqs {
  datatype Option<+T> = None | Some(value: T)

  /** `s` with the elements `d` stored from position `at` on: what one memcpy leaves behind. */
  function Overlay<T>(s: seq<T>, at: nat, d: seq<T>): (r: seq<T>)
    requires at + |d| <= |s|
    ensures |r| == |s|
  {
    s[..at] + d + s[at + |d|..]
  }

  function Remove<T>(s: seq<T>, k: nat): seq<T>
    requires k < |s|
  {
    s[..k] + s[k + 1..]
  }

  /** All pieces in a row. */
  function Flat<T>(pieces: seq<seq<T>>): seq<T> {
    if pieces == [] then [] else Flat(pieces[..|pieces| - 1]) + pieces[|pieces| - 1]
  }

  lemma {:induction false} FlatCons<T>(p: seq<T>, pieces: seq<seq<T>>)
    ensures Flat([p] + pieces) == p + Flat(pieces)
    decreases |pieces|
  {
    var all := [p] + pieces;
    if pieces == [] {
      assert all[..0] == [];
    } else {
      var k := |pieces| - 1;
      FlatCons(p, pieces[..k]);
      assert all[..|all| - 1] == [p] + pieces[..k];
    }
  }

  /** The first k + 1 pieces are the first k and one more. */
  lemma FlatNext<T>(pieces: seq<seq<T>>, k: nat)
    requires k < |pieces|
    ensures Flat(pieces[..k + 1]) == Flat(pieces[..k]) + pieces[k] && Flat(pieces[..0]) == []
    ensures pieces[..|pieces|] == pieces
  {
    assert pieces[..k + 1][..k] == pieces[..k];
  }

  lemma {:induction false} FlatGrows<T>(pieces: seq<seq<T>>, k: nat)
    requires k <= |pieces|
    ensures |Flat(pieces[..k])| <= |Flat(pieces)|
    decreases |pieces|
  {
    if k == |pieces| {
      assert pieces[..k] == pieces;
    } else {
      var m := |pieces| - 1;
      assert pieces[..m][..k] == pieces[..k];
      FlatGrows(pieces[..m], k);
    }
  }
}
