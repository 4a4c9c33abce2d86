/** The body of the `/stream` response (server.py:37-55): a
    `multipart/x-mixed-replace` stream with boundary `frame`, one JPEG per
    part. The camera and the pacing `time.sleep` are outside the model; the
    frames the camera delivers are an input. */
module Mjpeg {
  import opened Paths

  newtype byte = x: int | 0 <= x < 256

  /** `\r\n` */
  const CRLF: seq<byte> := [13, 10]

  /** `--frame`: `--` followed by the boundary `frame` declared in the
      mimetype (server.py:40). */
  const DASH_BOUNDARY: seq<byte> := [45, 45, 102, 114, 97, 109, 101]

  /** `Content-Type: image/jpeg`, the one header of every part. */
  const CONTENT_TYPE: seq<byte> := [67, 111, 110, 116, 101, 110, 116, 45, 84, 121, 112, 101, 58, 32, 105, 109, 97, 103, 101, 47, 106, 112, 101, 103]

  /** What the generator writes before the frame bytes. */
  const PREAMBLE: seq<byte> := DASH_BOUNDARY + CRLF + CONTENT_TYPE + CRLF + CRLF

  /** One yielded chunk (server.py:53-54). */
  function Part(frame: seq<byte>): seq<byte> {
    PREAMBLE + frame + CRLF
  }

  /** Recovers the frame from a chunk: strip the fixed preamble and the
      trailing CRLF. */
  function Unframe(part: seq<byte>): (r: Option<seq<byte>>)
    ensures r.Some? ==> |r.value| == |part| - |PREAMBLE| - |CRLF|
  {
    var n := |PREAMBLE|;
    if |part| >= n + 2 && part[..n] == PREAMBLE && part[|part| - 2..] == CRLF
    then Some(part[n..|part| - 2])
    else None
  }

  /** Every frame can be read back from its part. */
  lemma UnframePart(frame: seq<byte>)
    ensures Unframe(Part(frame)) == Some(frame)
  {
    var p := Part(frame);
    var n := |PREAMBLE|;
    assert p[..n] == PREAMBLE;
    assert p[|p| - 2..] == CRLF;
    assert p[n..|p| - 2] == frame;
  }

  /** Only parts unframe: a chunk that unframes to `f` is `Part(f)`. */
  lemma UnframeOnlyParts(part: seq<byte>, frame: seq<byte>)
    requires Unframe(part) == Some(frame)
    ensures part == Part(frame)
  {
    var n := |PREAMBLE|;
    assert part == part[..n] + part[n..|part| - 2] + part[|part| - 2..];
  }

  /** `gen_frames()`: nothing when there is no camera (server.py:43-44),
      otherwise one part per captured frame, in order. */
  function GenFrames(cameraPresent: bool, frames: seq<seq<byte>>): (r: seq<seq<byte>>)
    ensures !cameraPresent ==> r == []
    ensures cameraPresent ==> |r| == |frames|
    ensures cameraPresent ==> forall i :: 0 <= i < |r| ==> Unframe(r[i]) == Some(frames[i])
  {
    if !cameraPresent || frames == [] then []
    else
      UnframePart(frames[0]);
      [Part(frames[0])] + GenFrames(cameraPresent, frames[1..])
  }

  /** The response body: the chunks one after the other. */
  function Body(parts: seq<seq<byte>>): seq<byte> {
    if parts == [] then [] else parts[0] + Body(parts[1..])
  }

  /** The `body-part` of section 5.1.1 of RFC 2046: headers, an empty line,
      the content. */
  function BodyPart(frame: seq<byte>): seq<byte> {
    CONTENT_TYPE + CRLF + CRLF + frame
  }

  /** `*encapsulation`: each further part preceded by the delimiter
      CRLF `--frame` and the line break that ends it. */
  function Encapsulations(frames: seq<seq<byte>>): seq<byte> {
    if frames == [] then []
    else CRLF + DASH_BOUNDARY + CRLF + BodyPart(frames[0]) + Encapsulations(frames[1..])
  }

  /** A stream of parts in the grammar of section 5.1.1 of RFC 2046,
      without preamble and, the stream being endless, without the
      close-delimiter. */
  function Multipart(frames: seq<seq<byte>>): seq<byte>
    requires frames != []
  {
    DASH_BOUNDARY + CRLF + BodyPart(frames[0]) + Encapsulations(frames[1..])
  }

  lemma {:induction false} EncapsulationsShift(frames: seq<seq<byte>>)
    ensures Encapsulations(frames) + CRLF == CRLF + Body(GenFrames(true, frames))
  {
    if frames != [] {
      EncapsulationsShift(frames[1..]);
      BodyCons(frames);
      EncapsulationsCons(frames);
      ShiftLeft(CRLF, DASH_BOUNDARY + CRLF + BodyPart(frames[0]), Encapsulations(frames[1..]),
        Body(GenFrames(true, frames[1..])));
    }
  }

  lemma BodyCons(frames: seq<seq<byte>>)
    requires frames != []
    ensures Body(GenFrames(true, frames)) == Part(frames[0]) + Body(GenFrames(true, frames[1..]))
  {
    var g := GenFrames(true, frames);
    assert g == [Part(frames[0])] + GenFrames(true, frames[1..]);
    assert g[1..] == GenFrames(true, frames[1..]);
  }

  lemma EncapsulationsCons(frames: seq<seq<byte>>)
    requires frames != []
    ensures var m := DASH_BOUNDARY + CRLF + BodyPart(frames[0]);
      Encapsulations(frames) == (CRLF + m) + Encapsulations(frames[1..]) && Part(frames[0]) == m + CRLF
  {
    var ct := CONTENT_TYPE;
    Regroup(CRLF, DASH_BOUNDARY, CRLF, BodyPart(frames[0]), Encapsulations(frames[1..]));
    Regroup(DASH_BOUNDARY, CRLF, ct + CRLF + CRLF, frames[0], CRLF);
    assert PREAMBLE == DASH_BOUNDARY + CRLF + (ct + CRLF + CRLF) by {
      Regroup(DASH_BOUNDARY, CRLF, ct, CRLF, CRLF);
    }
  }

  lemma Regroup<T>(a: seq<T>, b: seq<T>, c: seq<T>, d: seq<T>, e: seq<T>)
    ensures a + b + c + d + e == (a + ((b + c) + d)) + e
    ensures a + b + (c + d) + e == (a + ((b + c) + d)) + e
  {
  }

  /** The stream is a multipart body whose delimiters are the declared
      boundary: the parts, as RFC 2046 frames them, followed by the CRLF
      that starts the next delimiter. */
  lemma StreamIsMultipart(frames: seq<seq<byte>>)
    requires frames != []
    ensures Body(GenFrames(true, frames)) == Multipart(frames) + CRLF
  {
    EncapsulationsShift(frames[1..]);
    BodyCons(frames);
    var rest := Body(GenFrames(true, frames[1..]));
    var bp := BodyPart(frames[0]);
    var head := DASH_BOUNDARY + CRLF + bp;
    ShiftRight(head, Encapsulations(frames[1..]), CRLF, rest);
    assert Part(frames[0]) == head + CRLF;
  }

  lemma ShiftLeft<T>(c: seq<T>, m: seq<T>, e: seq<T>, r: seq<T>)
    requires e + c == c + r
    ensures ((c + m) + e) + c == c + ((m + c) + r)
  {
    calc {
      ((c + m) + e) + c;
      (c + m) + (e + c);
      (c + m) + (c + r);
    }
  }

  lemma ShiftRight<T>(h: seq<T>, e: seq<T>, c: seq<T>, r: seq<T>)
    requires e + c == c + r
    ensures (h + e) + c == (h + c) + r
  {
    calc {
      (h + e) + c;
      h + (e + c);
      h + (c + r);
    }
  }
}
