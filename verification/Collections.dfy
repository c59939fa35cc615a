/** Facts about finite collections that several modules share. */
module Collections {

  /** Every finite set can be listed. */
  lemma {:induction false} Enumerate<T>(s: set<T>) returns (xs: seq<T>)
    ensures forall x :: x in xs <==> x in s
    decreases |s|
  {
    if s == {} {
      xs := [];
    } else {
      var x :| x in s;
      var rest := Enumerate(s - {x});
      xs := rest + [x];
    }
  }
}
