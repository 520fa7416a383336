/**
 * OcrService.kt: turning a text-recognition result into Hanzi boxes, and the
 * live camera analyzer that throttles frames to one per second.
 *
 * The recognition engine is not modelled: its result is an input value with
 * the shape blocks -> lines -> elements, and a live recognition's outcome is
 * passed to `Analyze`. The pinyin converter is the parameter `pinyin`.
 */
module OcrService {
  import opened Wrappers
  import HanziExtractor

  /** android.graphics.Rect: integer edges, width() = right - left, height() = bottom - top. */
  datatype Rect = Rect(left: int, top: int, right: int, bottom: int) {
    function Width(): int { right - left }
    function Height(): int { bottom - top }
  }

  /** A recognised word with its text and optional bounding box. */
  datatype Element = Element(text: string, boundingBox: Option<Rect>)
  datatype Line = Line(elements: seq<Element>)
  datatype TextBlock = TextBlock(lines: seq<Line>)
  /** The recognition result, `result.textBlocks`. */
  datatype Text = Text(textBlocks: seq<TextBlock>)

  datatype OcrBox = OcrBox(hanzi: string, pinyin: string, left: int, top: int, width: int, height: int)

  /** `flatMap { it.lines }` */
  function BlockLines(blocks: seq<TextBlock>): seq<Line> {
    if blocks == [] then [] else blocks[0].lines + BlockLines(blocks[1..])
  }

  /** `flatMap { it.elements }` */
  function LineElements(lines: seq<Line>): seq<Element> {
    if lines == [] then [] else lines[0].elements + LineElements(lines[1..])
  }

  /** Every element of the result in block, line, element order. */
  function Elements(result: Text): seq<Element> {
    LineElements(BlockLines(result.textBlocks))
  }

  /** An element yields a box when it holds Hanzi and has a bounding box. */
  predicate Kept(e: Element) {
    HanziExtractor.Extract(e.text).Some? && e.boundingBox.Some?
  }

  /**
   * The `mapNotNull` lambda: null when the text has no Hanzi, otherwise the
   * box, when there is a bounding box, carrying the Hanzi and its pinyin.
   */
  function ToBox(e: Element, pinyin: string -> string): (b: Option<OcrBox>)
    ensures b.Some? <==> Kept(e)
    ensures b.Some? ==> b.value.hanzi != [] && HanziExtractor.AllHanzi(b.value.hanzi)
  {
    match HanziExtractor.Extract(e.text)
    case None => None
    case Some(hanzi) =>
      var py := pinyin(hanzi);
      match e.boundingBox
      case None => None
      case Some(box) => Some(OcrBox(hanzi, py, box.left, box.top, box.Width(), box.Height()))
  }

  /** `mapNotNull` with the lambda above. */
  function MapNotNull(es: seq<Element>, pinyin: string -> string): (boxes: seq<OcrBox>)
    ensures |boxes| <= |es|
  {
    if es == [] then []
    else
      match ToBox(es[0], pinyin)
      case None => MapNotNull(es[1..], pinyin)
      case Some(b) => [b] + MapNotNull(es[1..], pinyin)
  }

  /**
   * `OcrService.recognizeHanzi` after recognition, and equally the chain in
   * the live analyzer's success listener, which is the same code.
   */
  function RecognizeHanzi(result: Text, pinyin: string -> string): (boxes: seq<OcrBox>)
    ensures |boxes| <= |Elements(result)|
  {
    MapNotNull(Elements(result), pinyin)
  }

  // ---------------------------------------------------------------------
  // Which elements become boxes.
  // ---------------------------------------------------------------------

  /** The positions, from `i` on, of the elements that are kept, in increasing order. */
  function KeptFrom(es: seq<Element>, i: nat): (idx: seq<nat>)
    requires i <= |es|
    ensures forall k :: 0 <= k < |idx| ==> i <= idx[k] < |es| && Kept(es[idx[k]])
    ensures forall k, m :: 0 <= k < m < |idx| ==> idx[k] < idx[m]
    ensures forall j :: i <= j < |es| && Kept(es[j]) ==> j in idx
    decreases |es| - i
  {
    if i == |es| then []
    else if Kept(es[i]) then [i] + KeptFrom(es, i + 1)
    else KeptFrom(es, i + 1)
  }

  /** What the box built from a kept element holds. */
  predicate BoxOf(b: OcrBox, e: Element, pinyin: string -> string)
    requires Kept(e)
  {
    var box := e.boundingBox.value;
    && b.hanzi == HanziExtractor.Extract(e.text).value
    && b.pinyin == pinyin(b.hanzi)
    && b.left == box.left && b.top == box.top
    && b.width == box.Width() && b.height == box.Height()
  }

  lemma ToBoxOfKept(e: Element, pinyin: string -> string)
    requires Kept(e)
    ensures ToBox(e, pinyin).Some? && BoxOf(ToBox(e, pinyin).value, e, pinyin)
  {
  }

  lemma {:induction false} MapNotNullLength(es: seq<Element>, i: nat, pinyin: string -> string)
    requires i <= |es|
    ensures |MapNotNull(es[i..], pinyin)| == |KeptFrom(es, i)|
    decreases |es| - i
  {
    if i < |es| {
      var tail := es[i..];
      assert tail[0] == es[i] && tail[1..] == es[i + 1..];
      MapNotNullLength(es, i + 1, pinyin);
    }
  }

  /** The k-th box of `es[i..]` is built from the k-th kept element from `i` on. */
  lemma {:induction false} MapNotNullAt(es: seq<Element>, i: nat, k: nat, pinyin: string -> string)
    requires i <= |es| && k < |KeptFrom(es, i)|
    ensures k < |MapNotNull(es[i..], pinyin)|
    ensures BoxOf(MapNotNull(es[i..], pinyin)[k], es[KeptFrom(es, i)[k]], pinyin)
    decreases |es| - i
  {
    MapNotNullLength(es, i, pinyin);
    var tail, rest, restIdx := es[i..], MapNotNull(es[i + 1..], pinyin), KeptFrom(es, i + 1);
    assert tail[0] == es[i] && tail[1..] == es[i + 1..];
    if Kept(es[i]) {
      ToBoxOfKept(es[i], pinyin);
      var b := ToBox(es[i], pinyin).value;
      assert MapNotNull(tail, pinyin) == [b] + rest;
      assert KeptFrom(es, i) == [i] + restIdx;
      if k > 0 {
        MapNotNullAt(es, i + 1, k - 1, pinyin);
      }
    } else {
      assert MapNotNull(tail, pinyin) == rest;
      MapNotNullAt(es, i + 1, k, pinyin);
    }
  }

  /**
   * One box per element that holds Hanzi and has a bounding box, in element
   * order, and none for any other element: box k comes from the k-th kept
   * element, carries its extracted Hanzi, the pinyin of that Hanzi and the
   * bounding box's left, top, width and height.
   */
  lemma BoxesFollowKeptElements(result: Text, pinyin: string -> string)
    ensures var es, boxes, idx := Elements(result), RecognizeHanzi(result, pinyin), KeptFrom(Elements(result), 0);
      && |boxes| == |idx|
      && (forall k :: 0 <= k < |idx| ==> idx[k] < |es| && Kept(es[idx[k]]) && BoxOf(boxes[k], es[idx[k]], pinyin))
      && (forall k, m :: 0 <= k < m < |idx| ==> idx[k] < idx[m])
      && (forall j :: 0 <= j < |es| && Kept(es[j]) ==> j in idx)
  {
    var es := Elements(result);
    assert es[0..] == es;
    MapNotNullLength(es, 0, pinyin);
    forall k | 0 <= k < |KeptFrom(es, 0)|
      ensures BoxOf(RecognizeHanzi(result, pinyin)[k], es[KeptFrom(es, 0)[k]], pinyin)
    {
      MapNotNullAt(es, 0, k, pinyin);
    }
  }

  /** Every box holds a non-empty run of Hanzi and the pinyin of exactly that text. */
  lemma {:induction false} BoxesHoldHanzi(es: seq<Element>, pinyin: string -> string)
    ensures forall b :: b in MapNotNull(es, pinyin) ==>
      b.hanzi != [] && HanziExtractor.AllHanzi(b.hanzi) && b.pinyin == pinyin(b.hanzi)
  {
    if es != [] {
      BoxesHoldHanzi(es[1..], pinyin);
    }
  }

  lemma {:induction false} LineElementsAppend(a: seq<Line>, b: seq<Line>)
    ensures LineElements(a + b) == LineElements(a) + LineElements(b)
  {
    if a == [] {
      assert a + b == b;
    } else {
      assert (a + b)[1..] == a[1..] + b;
      LineElementsAppend(a[1..], b);
    }
  }

  lemma {:induction false} BlockLinesAppend(a: seq<TextBlock>, b: seq<TextBlock>)
    ensures BlockLines(a + b) == BlockLines(a) + BlockLines(b)
  {
    if a == [] {
      assert a + b == b;
    } else {
      assert (a + b)[1..] == a[1..] + b;
      BlockLinesAppend(a[1..], b);
    }
  }

  lemma {:induction false} MapNotNullAppend(a: seq<Element>, b: seq<Element>, pinyin: string -> string)
    ensures MapNotNull(a + b, pinyin) == MapNotNull(a, pinyin) + MapNotNull(b, pinyin)
  {
    if a == [] {
      assert a + b == b;
    } else {
      assert (a + b)[1..] == a[1..] + b;
      MapNotNullAppend(a[1..], b, pinyin);
    }
  }

  /** Blocks are processed in order: the boxes of a result are those of its first blocks followed by those of the rest. */
  lemma BoxesFollowBlockOrder(a: seq<TextBlock>, b: seq<TextBlock>, pinyin: string -> string)
    ensures RecognizeHanzi(Text(a + b), pinyin) == RecognizeHanzi(Text(a), pinyin) + RecognizeHanzi(Text(b), pinyin)
  {
    BlockLinesAppend(a, b);
    LineElementsAppend(BlockLines(a), BlockLines(b));
    MapNotNullAppend(Elements(Text(a)), Elements(Text(b)), pinyin);
  }

  // ---------------------------------------------------------------------
  // The live analyzer.
  // ---------------------------------------------------------------------

  /** Minimum time, in milliseconds, between two frames that are processed. */
  const ThrottleMillis: int := 1000

  datatype MediaImage = MediaImage(width: int, height: int)

  /** A camera frame handle; `closeCount` counts the calls to `close()`. */
  class ImageProxy {
    const image: Option<MediaImage>
    ghost var closeCount: nat

    constructor (image: Option<MediaImage>)
      ensures this.image == image && closeCount == 0
    {
      this.image := image;
      closeCount := 0;
    }

    method Close()
      modifies this
      ensures closeCount == old(closeCount) + 1
    {
      closeCount := closeCount + 1;
    }
  }

  /** What the recognition task of a frame completes with. */
  datatype Recognition = Succeeded(result: Text) | Failed

  /** One call of the `onResult` callback: the boxes and the image size. */
  datatype Delivery = Delivery(boxes: seq<OcrBox>, width: int, height: int)

  /** Consecutive times at least `ThrottleMillis` apart. */
  ghost predicate Spaced(ts: seq<int>) {
    forall i :: 0 <= i < |ts| - 1 ==> ts[i] + ThrottleMillis <= ts[i + 1]
  }

  class LiveOcrAnalyzer {
    const pinyin: string -> string
    var lastProcessedTime: int
    /** The calls made to `onResult`, oldest first. */
    var delivered: seq<Delivery>
    /** The times of the frames that passed the throttle, oldest first. */
    ghost var accepted: seq<int>

    /** `lastProcessedTime` is 0 or the time of the last frame that passed, and those times are spaced. */
    ghost predicate Valid()
      reads this
    {
      && Spaced([0] + accepted)
      && lastProcessedTime == ([0] + accepted)[|accepted|]
    }

    constructor (pinyin: string -> string)
      ensures Valid()
      ensures this.pinyin == pinyin
      ensures lastProcessedTime == 0 && delivered == [] && accepted == []
    {
      this.pinyin := pinyin;
      lastProcessedTime := 0;
      delivered := [];
      accepted := [];
    }

    /**
     * `analyze(imageProxy)` with the clock reading `now` and the outcome of
     * the recognition it starts. The proxy is closed exactly once on every
     * path; a frame inside the throttle window leaves everything else as it
     * was; any other frame moves `lastProcessedTime` to `now`, even when it
     * has no image; a successful recognition delivers its boxes.
     */
    method Analyze(now: int, proxy: ImageProxy, recognition: Recognition)
      requires Valid()
      modifies this, proxy
      ensures Valid()
      ensures proxy.closeCount == old(proxy.closeCount) + 1
      ensures now - old(lastProcessedTime) < ThrottleMillis ==>
        lastProcessedTime == old(lastProcessedTime) && accepted == old(accepted) && delivered == old(delivered)
      ensures now - old(lastProcessedTime) >= ThrottleMillis ==>
        lastProcessedTime == now && accepted == old(accepted) + [now]
      ensures delivered ==
        if now - old(lastProcessedTime) >= ThrottleMillis && proxy.image.Some? && recognition.Succeeded?
        then old(delivered) + [Delivery(RecognizeHanzi(recognition.result, pinyin), proxy.image.value.width, proxy.image.value.height)]
        else old(delivered)
    {
      if now - lastProcessedTime < ThrottleMillis {
        proxy.Close();
        return;
      }
      lastProcessedTime := now;
      accepted := accepted + [now];
      assert ([0] + accepted)[..|accepted|] == [0] + old(accepted);

      if proxy.image.None? {
        proxy.Close();
        return;
      }
      var image := proxy.image.value;

      match recognition {
        case Succeeded(result) =>
          var boxes := RecognizeHanzi(result, pinyin);
          delivered := delivered + [Delivery(boxes, image.width, image.height)];
        case Failed =>
      }
      // the completion listener runs after success and after failure alike
      proxy.Close();
    }
  }

  /** Any two frames that passed the throttle are at least a second apart per frame in between. */
  lemma {:induction false} SpacedApart(ts: seq<int>, i: int, j: int)
    requires Spaced(ts)
    requires 0 <= i <= j < |ts|
    ensures ts[i] + ThrottleMillis * (j - i) <= ts[j]
    decreases j - i
  {
    if i < j {
      SpacedApart(ts, i, j - 1);
    }
  }

  /** The throttle's promise for an analyzer in any reachable state. */
  lemma AcceptedFramesApart(a: LiveOcrAnalyzer, i: int, j: int)
    requires a.Valid()
    requires 0 <= i < j < |a.accepted|
    ensures a.accepted[i] + ThrottleMillis <= a.accepted[j]
    ensures ThrottleMillis <= a.accepted[0]
  {
    SpacedApart([0] + a.accepted, i + 1, j + 1);
    SpacedApart([0] + a.accepted, 0, 1);
  }
}
