/** Grey images and the statistics prepared for a template. */
module Template {
  import opened Bytes
  import opened Ncc

  datatype Gray = Gray(width: nat, height: nat, data: seq<Byte>)
  datatype Prepared = Prepared(image: Gray, sum: int, variance: int)
  datatype PrepareError = TemplateEmpty | TemplateUniform

  function Build(image: Gray): Result<Prepared, PrepareError> {
    if image.data == [] then Err(TemplateEmpty)
    else if Var(image.data) == 0 then Err(TemplateUniform)
    else Ok(Prepared(image, Sum(image.data), Var(image.data)))
  }

  /** Preparation refuses exactly the one-colour images, tells an empty one apart, and otherwise stores the image with its
      own sum and variance, which is positive. */
  lemma BuildRefusesUniform(image: Gray)
    ensures Build(image).Err? <==> Uniform(image.data)
    ensures Build(image).Err? ==> (Build(image).error.TemplateEmpty? <==> image.data == [])
    ensures Build(image).Ok? ==>
              var p := Build(image).value;
              p.image == image && p.sum == Sum(image.data) && p.variance == Var(image.data) > 0
  {
    VarSign(image.data);
  }

  /** The sums of the pixels and of their squares. */
  method SumPixels(data: seq<Byte>) returns (sum: int, squares: int)
    ensures sum == Sum(data) && squares == Dot(data, data)
  {
    sum, squares := 0, 0;
    for i := 0 to |data|
      invariant sum == Sum(data[..i]) && squares == Dot(data[..i], data[..i])
    {
      assert data[..i + 1][..i] == data[..i];
      var v: int := data[i];
      sum, squares := sum + v, squares + v * v;
    }
    assert data[..|data|] == data;
  }

  method BuildPrepared(image: Gray) returns (r: Result<Prepared, PrepareError>)
    ensures r == Build(image)
  {
    if image.data == [] {
      return Err(TemplateEmpty);
    }
    var sum, squares := SumPixels(image.data);
    var variance := |image.data| * squares - sum * sum;
    if variance == 0 {
      return Err(TemplateUniform);
    }
    return Ok(Prepared(image, sum, variance));
  }
}
