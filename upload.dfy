/** Storing the page images: `ObjectStorage::put_image` for one image, and the
    fan-out in `handle_pdf_upload` that spawns one upload per image, waits for
    all of them and collects their results. */
module Upload {
  import opened Wrappers
  import opened Errors
  import opened Render

  /** `put_image`: stores the image under its name. The object store's answer
      is `sent`; on success the upload yields the image's own name. */
  function PutImage(image: PdfImage, sent: Result<(), S3Error>): (r: Result<string, AppError>)
    ensures r.Success? <==> sent.Success?
    ensures r.Success? ==> r.value == image.name
    ensures r.Failure? ==> r.error == S3(sent.error)
  {
    match sent
    case Success(_) => Success(image.name)
    case Failure(e) => Failure(S3(e))
  }

  function Names(images: seq<PdfImage>): (names: seq<string>)
    ensures |names| == |images|
    ensures forall i :: 0 <= i < |images| ==> names[i] == images[i].name
  {
    seq(|images|, i requires 0 <= i < |images| => images[i].name)
  }

  /** 0, 1, ..., n - 1 */
  function Indices(n: nat): (s: seq<nat>)
    ensures |s| == n
    ensures forall i :: 0 <= i < n ==> s[i] == i
  {
    seq(n, i => i)
  }

  /** The order in which `n` spawned tasks complete: every task exactly once. */
  predicate IsCompletionOrder(order: seq<nat>, n: nat) {
    multiset(order) == multiset(Indices(n))
  }

  /** The elements of `s` at the positions `order` lists. */
  function Pick<T>(s: seq<T>, order: seq<nat>): (r: seq<T>)
    requires forall k :: 0 <= k < |order| ==> order[k] < |s|
    ensures |r| == |order|
    ensures forall k :: 0 <= k < |order| ==> r[k] == s[order[k]]
  {
    seq(|order|, k requires 0 <= k < |order| => s[order[k]])
  }

  lemma CompletionOrderIsPermutation(order: seq<nat>, n: nat)
    requires IsCompletionOrder(order, n)
    ensures |order| == n
    ensures forall k :: 0 <= k < |order| ==> order[k] < n
    ensures forall i :: 0 <= i < n ==> i in order
  {
    assert |multiset(order)| == |multiset(Indices(n))|;
    forall k | 0 <= k < |order| ensures order[k] < n {
      assert order[k] in multiset(Indices(n));
    }
    forall i | 0 <= i < n ensures i in order {
      assert Indices(n)[i] == i;
      assert i in multiset(order);
    }
  }

  /** Removing the element at position `j` removes one copy of it. */
  lemma RemoveAt(b: seq<nat>, j: nat)
    requires j < |b|
    ensures multiset(b[..j] + b[j + 1..]) == multiset(b) - multiset{b[j]}
  {
    assert b == b[..j] + [b[j]] + b[j + 1..];
  }

  lemma PickConcat<T>(s: seq<T>, u: seq<nat>, v: seq<nat>)
    requires forall k :: 0 <= k < |u| ==> u[k] < |s|
    requires forall k :: 0 <= k < |v| ==> v[k] < |s|
    ensures Pick(s, u + v) == Pick(s, u) + Pick(s, v)
  {
  }

  lemma PickCons<T>(s: seq<T>, a: seq<nat>)
    requires forall k :: 0 <= k < |a| ==> a[k] < |s|
    requires 0 < |a|
    ensures multiset(Pick(s, a)) == multiset{s[a[0]]} + multiset(Pick(s, a[1..]))
  {
    assert Pick(s, a) == [s[a[0]]] + Pick(s, a[1..]);
  }

  lemma PickSplit<T>(s: seq<T>, a: seq<nat>, j: nat)
    requires forall k :: 0 <= k < |a| ==> a[k] < |s|
    requires j < |a|
    ensures multiset(Pick(s, a)) == multiset(Pick(s, a[..j])) + multiset{s[a[j]]} + multiset(Pick(s, a[j + 1..]))
  {
    var p := Pick(s, a);
    assert p == p[..j] + [p[j]] + p[j + 1..];
    assert p[..j] == Pick(s, a[..j]);
    assert p[j + 1..] == Pick(s, a[j + 1..]);
  }

  lemma UnionShuffle<T>(left: multiset<T>, head: multiset<T>, right: multiset<T>)
    ensures left + head + right == head + (left + right)
  {
  }

  /** Picking by two orders that list the same positions gives the same
      elements, each as often. */
  lemma {:induction false} PickPermutation<T>(s: seq<T>, a: seq<nat>, b: seq<nat>)
    requires forall k :: 0 <= k < |a| ==> a[k] < |s|
    requires forall k :: 0 <= k < |b| ==> b[k] < |s|
    requires multiset(a) == multiset(b)
    ensures multiset(Pick(s, a)) == multiset(Pick(s, b))
  {
    if |a| == 0 {
      assert |multiset(b)| == 0;
    } else {
      var x := a[0];
      assert x in multiset(b);
      var j :| 0 <= j < |b| && b[j] == x;
      var pre, post := b[..j], b[j + 1..];
      RemoveAt(b, j);
      assert multiset(a[1..]) == multiset(a) - multiset{x} by {
        assert a == [x] + a[1..];
      }
      PickPermutation(s, a[1..], pre + post);
      PickConcat(s, pre, post);
      var head, rest := multiset{s[x]}, multiset(Pick(s, a[1..]));
      assert rest == multiset(Pick(s, pre)) + multiset(Pick(s, post));
      PickCons(s, a);
      PickSplit(s, b, j);
      var left, right := multiset(Pick(s, pre)), multiset(Pick(s, post));
      UnionShuffle(left, head, right);
    }
  }

  /** The fan-out of `handle_pdf_upload`. One upload task is spawned per
      image; `sent[i]` is the object store's answer to the upload of
      `images[i]`, and `completion` is the order in which the tasks finish,
      which is the order `join_all` returns their results in. Every upload
      runs to completion whatever the others do. The collected result is a
      success exactly when every upload succeeded, and then lists each
      image's name once, in completion order; otherwise it is the S3 error of
      the first failed upload in completion order. */
  method UploadAll(images: seq<PdfImage>, sent: seq<Result<(), S3Error>>, completion: seq<nat>)
      returns (r: Result<seq<string>, AppError>)
    requires |sent| == |images|
    requires IsCompletionOrder(completion, |images|)
    ensures r.Success? <==> forall i :: 0 <= i < |images| ==> sent[i].Success?
    ensures r.Success? ==>
      |r.value| == |completion| == |images| &&
      (forall k :: 0 <= k < |completion| ==> completion[k] < |images| && r.value[k] == images[completion[k]].name) &&
      multiset(r.value) == multiset(Names(images))
    ensures r.Failure? ==>
      exists k :: 0 <= k < |completion| && 0 <= completion[k] < |sent| &&
        sent[completion[k]].Failure? && r.error == S3(sent[completion[k]].error) &&
        forall j :: 0 <= j < k ==> 0 <= completion[j] < |sent| && sent[completion[j]].Success?
  {
    CompletionOrderIsPermutation(completion, |images|);

    // One task per image; each task's output is what its upload returns.
    var tasks: seq<Result<string, AppError>> := [];
    for i := 0 to |images|
      invariant |tasks| == i
      invariant forall j :: 0 <= j < i ==> tasks[j] == PutImage(images[j], sent[j])
    {
      tasks := tasks + [PutImage(images[i], sent[i])];
    }

    // `join_all`: every task's output, in the order the tasks completed.
    var joined := Pick(tasks, completion);

    // `collect::<Result<Vec<_>, _>>()`: stops at the first error.
    var names: seq<string> := [];
    var k := 0;
    while k < |joined|
      invariant 0 <= k <= |joined|
      invariant |names| == k
      invariant forall j :: 0 <= j < k ==> joined[j].Success? && names[j] == joined[j].value
    {
      match joined[k]
      case Failure(e) =>
        return Failure(e);
      case Success(name) =>
        names := names + [name];
      k := k + 1;
    }

    forall i | 0 <= i < |images| ensures sent[i].Success? {
      assert i in completion;
      var k :| 0 <= k < |completion| && completion[k] == i;
      assert joined[k].Success?;
    }
    assert names == Pick(Names(images), completion);
    PickPermutation(Names(images), completion, Indices(|images|));
    assert Pick(Names(images), Indices(|images|)) == Names(images);
    r := Success(names);
  }
}
