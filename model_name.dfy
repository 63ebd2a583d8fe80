/** utils.py set_model_name: the run name `dataset@arch@method`, where the
    method part depends on the weak-supervision strategy. The name keys the
    checkpoint directory, so the lemmas below show that the three parts
    can be read back from it. */
module ModelName {

  /** The parsed arguments set_model_name reads; absent values appear as
      the text Python's f-string gives them (for example "None"). */
  datatype RunArgs = RunArgs(
    weakSupervisionStrategy: string,
    dataset: string,
    arch: string,
    semiSupervisedMethod: string,
    uncertaintySamplingMethod: string)

  /** The third part of the name. */
  function MethodPart(a: RunArgs): (m: string)
    ensures a.weakSupervisionStrategy == "semi_supervised" ==> m == a.semiSupervisedMethod
    ensures a.weakSupervisionStrategy == "active_learning" ==> m == a.uncertaintySamplingMethod
    ensures a.weakSupervisionStrategy != "semi_supervised" && a.weakSupervisionStrategy != "active_learning" ==>
      m == a.weakSupervisionStrategy
  {
    if a.weakSupervisionStrategy == "semi_supervised" then a.semiSupervisedMethod
    else if a.weakSupervisionStrategy == "active_learning" then a.uncertaintySamplingMethod
    else a.weakSupervisionStrategy
  }

  /** The run name. Round trip: splitting it at '@' gives back the dataset,
      the architecture and the method part, when none of them contains '@'. */
  function SetModelName(a: RunArgs): (name: string)
    ensures '@' !in a.dataset && '@' !in a.arch && '@' !in MethodPart(a) ==>
      SplitAt(name) == [a.dataset, a.arch, MethodPart(a)]
  {
    JoinedFields(a.dataset, a.arch, MethodPart(a));
    a.dataset + "@" + a.arch + "@" + MethodPart(a)
  }

  /** Python's `s.split('@')`. */
  function SplitAt(s: string): (parts: seq<string>)
    ensures |parts| >= 1
    decreases |s|
  {
    if s == [] then [""]
    else
      var rest := SplitAt(s[1..]);
      if s[0] == '@' then [""] + rest else [[s[0]] + rest[0]] + rest[1..]
  }

  lemma {:induction false} SplitAtJoin(a: string, b: string)
    requires '@' !in a
    ensures SplitAt(a + "@" + b) == [a] + SplitAt(b)
    decreases |a|
  {
    if a == [] {
      assert a + "@" + b == ['@'] + b;
      assert (['@'] + b)[1..] == b;
    } else {
      SplitAtJoin(a[1..], b);
      assert (a + "@" + b)[1..] == a[1..] + "@" + b;
      assert [a[0]] + a[1..] == a;
    }
  }

  lemma {:induction false} SplitAtNoSeparator(a: string)
    requires '@' !in a
    ensures SplitAt(a) == [a]
    decreases |a|
  {
    if a != [] {
      SplitAtNoSeparator(a[1..]);
      assert [a[0]] + a[1..] == a;
    }
  }

  /** Three '@'-free fields joined by '@' split back into those fields. */
  lemma JoinedFields(x: string, y: string, z: string)
    ensures '@' !in x && '@' !in y && '@' !in z ==> SplitAt(x + "@" + y + "@" + z) == [x, y, z]
  {
    if '@' !in x && '@' !in y && '@' !in z {
      assert x + "@" + y + "@" + z == x + "@" + (y + "@" + z);
      SplitAtJoin(x, y + "@" + z);
      SplitAtJoin(y, z);
      SplitAtNoSeparator(z);
    }
  }

  /** Two runs get the same name only if they agree on dataset,
      architecture and method part: a consequence of the round trip in
      SetModelName's contract. */
  lemma ModelNamesDistinguishRuns(a: RunArgs, b: RunArgs)
    requires '@' !in a.dataset && '@' !in a.arch && '@' !in MethodPart(a)
    requires '@' !in b.dataset && '@' !in b.arch && '@' !in MethodPart(b)
    requires SetModelName(a) == SetModelName(b)
    ensures a.dataset == b.dataset && a.arch == b.arch && MethodPart(a) == MethodPart(b)
  {
  }
}
