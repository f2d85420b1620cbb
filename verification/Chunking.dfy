/** `AgentRAG._chunk`: overlapping windows over a text. */
module Chunking {
  type Text = seq<char>

  /** Python's `s[i:j]` for a non-negative `i`. */
  function Slice(s: Text, i: nat, j: int): Text {
    var stop := if j < 0 then (if |s| + j < 0 then 0 else |s| + j) else if j > |s| then |s| else j;
    if i >= stop then [] else s[i..stop]
  }

  function Step(size: int, overlap: int): (step: int)
    ensures step >= 1
  {
    if size - overlap > 1 then size - overlap else 1
  }

  /** The windows that start at `i`, `i + step`, ... before the end of the text. */
  ghost function Windows(text: Text, i: nat, size: int, step: int): seq<Text>
    requires step >= 1
    decreases |text| - i
  {
    if i >= |text| then [] else [Slice(text, i, i + size)] + Windows(text, i + step, size, step)
  }

  ghost function Chunks(text: Text, size: int, overlap: int): seq<Text> {
    if |text| <= size then [text] else Windows(text, 0, size, Step(size, overlap))
  }

  method Chunk(text: Text, size: int, overlap: int) returns (chunks: seq<Text>)
    ensures chunks == Chunks(text, size, overlap)
  {
    if |text| <= size {
      return [text];
    }
    var step := Step(size, overlap);
    chunks := [];
    var i := 0;
    while i < |text|
      invariant 0 <= i
      invariant chunks + Windows(text, i, size, step) == Windows(text, 0, size, step)
    {
      chunks := chunks + [Slice(text, i, i + size)];
      i := i + step;
    }
  }

  /** The first `step` characters of every chunk, put together. */
  ghost function Stitch(chunks: seq<Text>, step: int): Text
    requires step >= 1
  {
    if chunks == [] then []
    else (if |chunks[0]| <= step then chunks[0] else chunks[0][..step]) + Stitch(chunks[1..], step)
  }

  lemma {:induction false} WindowsRebuild(text: Text, i: nat, size: int, step: int)
    requires 1 <= step <= size && i <= |text|
    ensures Stitch(Windows(text, i, size, step), step) == text[i..]
    decreases |text| - i
  {
    if i == |text| {
    } else {
      var w := Windows(text, i, size, step);
      var c := Slice(text, i, i + size);
      SliceFrom(text, i, size);
      assert w[0] == c && w[1..] == Windows(text, i + step, size, step);
      if i + step <= |text| {
        WindowsRebuild(text, i + step, size, step);
        FirstStep(text, i, size, step);
      } else {
        assert w[1..] == [];
        assert c == text[i..];
      }
    }
  }

  lemma FirstStep(text: Text, i: nat, size: int, step: int)
    requires 1 <= step <= size && i + step <= |text|
    ensures var c := text[i..if i + size <= |text| then i + size else |text|];
      (if |c| <= step then c else c[..step]) + text[i + step..] == text[i..]
  {
    var c := text[i..if i + size <= |text| then i + size else |text|];
    assert (if |c| <= step then c else c[..step]) == text[i..i + step];
  }

  /** Nothing is lost: the first step characters of each chunk of a long text rebuild the text. */
  lemma ChunksRebuild(text: Text, size: int, overlap: int)
    requires size >= 1 && overlap >= 0
    ensures |text| > size ==> Stitch(Chunks(text, size, overlap), Step(size, overlap)) == text
    ensures |text| <= size ==> Chunks(text, size, overlap) == [text]
  {
    if |text| > size {
      WindowsRebuild(text, 0, size, Step(size, overlap));
      assert text[0..] == text;
    }
  }

  /** `text[a..b]` lies wholly inside chunk `c`, which starts at position `s`. */
  ghost predicate Inside(text: Text, a: nat, b: nat, c: Text, s: nat) {
    s <= a <= b <= s + |c| <= |text| && c == text[s..s + |c|]
  }

  lemma {:induction false} WindowsCover(text: Text, i: nat, size: int, step: int, a: nat, b: nat)
    returns (c: Text, s: nat)
    requires 1 <= step <= size && i <= a <= b <= |text| && a < |text|
    requires b - a <= size - step + 1
    ensures c in Windows(text, i, size, step) && Inside(text, a, b, c, s)
    decreases |text| - i
  {
    var w := Windows(text, i, size, step);
    assert w == [Slice(text, i, i + size)] + Windows(text, i + step, size, step);
    if a < i + step {
      c, s := Slice(text, i, i + size), i;
      assert w[0] == c;
    } else {
      c, s := WindowsCover(text, i + step, size, step, a, b);
    }
  }

  /**
   Every substring of at most `overlap + 1` characters lies inside one chunk when the overlap is
   smaller than the size; when it is not, every substring of at most `size` characters does.
   */
  lemma ChunksCover(text: Text, size: int, overlap: int, a: nat, b: nat) returns (c: Text, s: nat)
    requires size >= 1 && overlap >= 0 && a <= b <= |text| && a < |text|
    requires b - a <= if overlap < size then overlap + 1 else size
    ensures c in Chunks(text, size, overlap) && Inside(text, a, b, c, s)
  {
    if |text| <= size {
      c, s := text, 0;
      assert text[0..|text|] == text;
    } else {
      c, s := WindowsCover(text, 0, size, Step(size, overlap), a, b);
    }
  }

  /** The position `k` steps after `i`. */
  ghost function StepsOn(i: nat, step: int, k: nat): nat
    requires step >= 1
    decreases k
  {
    if k == 0 then i else StepsOn(i + step, step, k - 1)
  }

  lemma {:induction false} StepsOnIs(i: nat, step: int, k: nat)
    requires step >= 1
    ensures StepsOn(i, step, k) == i + k * step
    decreases k
  {
    if k > 0 {
      StepsOnIs(i + step, step, k - 1);
      assert k * step == (k - 1) * step + step;
    }
  }

  lemma {:induction false} WindowAt(text: Text, i: nat, size: int, step: int, k: nat)
    requires step >= 1
    ensures k < |Windows(text, i, size, step)| <==> StepsOn(i, step, k) < |text|
    ensures k < |Windows(text, i, size, step)| ==>
      Windows(text, i, size, step)[k] == Slice(text, StepsOn(i, step, k), StepsOn(i, step, k) + size)
    decreases k
  {
    if i >= |text| {
      StepsOnGrow(i, step, k);
    } else if k > 0 {
      WindowAt(text, i + step, size, step, k - 1);
    }
  }

  lemma {:induction false} StepsOnGrow(i: nat, step: int, k: nat)
    requires step >= 1
    ensures StepsOn(i, step, k) >= i
    decreases k
  {
    if k > 0 {
      StepsOnGrow(i + step, step, k - 1);
    }
  }

  /**
   Chunk `k` of a long text starts `k` steps in, where a step is the size less the overlap but at least
   one; it is `size` characters long unless the text ends first; and there are chunks up to that end.
   */
  lemma ChunkAt(text: Text, size: int, overlap: int, step: int, k: nat)
    requires 1 <= size < |text|
    requires step == if size - overlap >= 1 then size - overlap else 1
    ensures k < |Chunks(text, size, overlap)| <==> k * step < |text|
    ensures k * step < |text| ==>
      Chunks(text, size, overlap)[k] == text[k * step..if k * step + size <= |text| then k * step + size else |text|]
  {
    WindowAt(text, 0, size, step, k);
    StepsOnIs(0, step, k);
    if k * step < |text| {
      SliceFrom(text, k * step, size);
    }
  }

  lemma SliceFrom(text: Text, i: nat, size: int)
    requires size >= 1 && i < |text|
    ensures Slice(text, i, i + size) == text[i..if i + size <= |text| then i + size else |text|]
  {
  }
}
