/** `buildOutput`: every Ingress, in order, as a `---` separator line followed
    by its serialized form; the first serialization failure aborts the whole
    call with no text. */
module Output {
  import opened Results
  import opened Resource

  /** The document separator written before every serialized Ingress. */
  const Separator: string := "---\n"

  /** Index of the first Ingress that fails to serialize, `|rs|` when none does. */
  function FirstFailure(rs: seq<Ingress>, marshal: Ingress -> Result<string, string>): (i: nat)
    ensures i <= |rs|
    ensures forall k :: 0 <= k < i ==> marshal(rs[k]).Ok?
    ensures i < |rs| ==> marshal(rs[i]).Err?
    decreases |rs|
  {
    if |rs| == 0 || marshal(rs[0]).Err? then 0 else 1 + FirstFailure(rs[1..], marshal)
  }

  function BuildOutput(rs: seq<Ingress>, marshal: Ingress -> Result<string, string>): (r: Result<string, GenError>)
    ensures |rs| == 0 ==> r == Ok("")
    ensures r.Ok? <==> forall k :: 0 <= k < |rs| ==> marshal(rs[k]).Ok?
    ensures r.Err? ==>
      var i := FirstFailure(rs, marshal);
      i < |rs| && r.error == ResourceMarshalFailed(rs[i], marshal(rs[i]).error)
    ensures r.Ok? && |rs| > 0 ==> Separator <= r.value
    decreases |rs|
  {
    if |rs| == 0 then Ok("")
    else
      match marshal(rs[0])
      case Err(e) => Err(ResourceMarshalFailed(rs[0], e))
      case Ok(doc) =>
        var rest := BuildOutput(rs[1..], marshal);
        assert forall k :: 1 <= k < |rs| ==> rs[k] == rs[1..][k - 1];
        match rest
        case Err(e) => Err(e)
        case Ok(text) => Ok(Separator + doc + text)
  }

  /** The output of a single Ingress: its separator and document. */
  lemma BuildOutputSingle(x: Ingress, marshal: Ingress -> Result<string, string>)
    ensures marshal(x).Ok? ==> BuildOutput([x], marshal) == Ok(Separator + marshal(x).value)
    ensures marshal(x).Err? ==> BuildOutput([x], marshal) == Err(ResourceMarshalFailed(x, marshal(x).error))
  {
    assert [x][1..] == [];
    if marshal(x).Ok? {
      assert Separator + marshal(x).value + "" == Separator + marshal(x).value;
    }
  }

  /** Output of a concatenation: the two outputs concatenated when both succeed,
      otherwise the first failure in order. */
  lemma {:induction false} BuildOutputAppend(a: seq<Ingress>, b: seq<Ingress>, marshal: Ingress -> Result<string, string>)
    ensures BuildOutput(a + b, marshal) ==
      match BuildOutput(a, marshal)
      case Err(e) => Err(e)
      case Ok(x) =>
        match BuildOutput(b, marshal)
        case Err(e) => Err(e)
        case Ok(y) => Ok(x + y)
    decreases |a|
  {
    if |a| == 0 {
      assert a + b == b;
      if BuildOutput(b, marshal).Ok? {
        assert "" + BuildOutput(b, marshal).value == BuildOutput(b, marshal).value;
      }
    } else {
      assert (a + b)[1..] == a[1..] + b;
      BuildOutputAppend(a[1..], b, marshal);
      if marshal(a[0]).Ok? && BuildOutput(a[1..], marshal).Ok? && BuildOutput(b, marshal).Ok? {
        var doc := marshal(a[0]).value;
        var x := BuildOutput(a[1..], marshal).value;
        var y := BuildOutput(b, marshal).value;
        assert Separator + doc + (x + y) == (Separator + doc + x) + y;
      }
    }
  }
}
