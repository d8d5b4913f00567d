/** The failure wrapper the model uses where the assembler raises. */
module Options {
  datatype Option<T> = None | Some(value: T)

  /** `values` extended by `x`, or `None` if either is missing. */
  function Snoc<T>(values: Option<seq<T>>, x: Option<T>): Option<seq<T>>
  {
    if values.None? || x.None? then None else Some(values.value + [x.value])
  }

  /** All the values of `xs`, in order, or `None` if any of them is missing. */
  function Collect<T>(xs: seq<Option<T>>): Option<seq<T>>
  {
    if xs == [] then Some([]) else Snoc(Collect(xs[..|xs| - 1]), xs[|xs| - 1])
  }

  /** `Collect` succeeds exactly when every entry is present, and then lists
      their values one for one. */
  lemma {:induction false} CollectValues<T>(xs: seq<Option<T>>)
    ensures Collect(xs).Some? <==> forall i :: 0 <= i < |xs| ==> xs[i].Some?
    ensures Collect(xs).Some? ==>
      |Collect(xs).value| == |xs| && forall i :: 0 <= i < |xs| ==> Collect(xs).value[i] == xs[i].value
    decreases |xs|
  {
    if xs != [] {
      var prefix := xs[..|xs| - 1];
      CollectValues(prefix);
      if Collect(prefix).None? {
        var i :| 0 <= i < |prefix| && prefix[i].None?;
        assert xs[i] == prefix[i];
      }
    }
  }
}
