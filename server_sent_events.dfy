/** The frames the `/chat` handler writes on its text/event-stream
    response: one `data:` field per event, ended by a blank line (the
    `data:` field of section 9.2 of the HTML Living Standard). */
module ServerSentEvents {

  import opened Wrappers

  /** `data: <payload>\n\n`, as written by `res.write`; reading the
      payload back gives the one written. */
  function Frame(payload: string): (f: string)
    ensures |f| == |payload| + 8
    ensures PayloadOf(f) == Some(payload)
  {
    var f := "data: " + payload + "\n\n";
    assert f[..6] == "data: " && f[|f| - 2..] == "\n\n" && f[6..|f| - 2] == payload;
    f
  }

  /** The terminal sentinel frame. */
  const DoneFrame: string := Frame("[DONE]")

  /** Reads back the payload of a frame of the shape `Frame` writes. */
  function PayloadOf(f: string): Option<string> {
    if |f| >= 8 && f[..6] == "data: " && f[|f| - 2..] == "\n\n" then Some(f[6..|f| - 2])
    else None
  }

  /** Distinct payloads give distinct frames. */
  lemma FrameInjective(a: string, b: string)
    ensures Frame(a) == Frame(b) <==> a == b
  {
    if Frame(a) == Frame(b) {
      assert Some(a) == PayloadOf(Frame(a)) == Some(b);
    }
  }

  /** One frame per payload, in order. */
  function Frames(payloads: seq<string>): (fs: seq<string>)
    ensures |fs| == |payloads|
  {
    if payloads == [] then []
    else Frames(payloads[..|payloads| - 1]) + [Frame(payloads[|payloads| - 1])]
  }

  /** The k-th frame carries the k-th payload. */
  lemma {:induction false} FramesAt(payloads: seq<string>, k: nat)
    requires k < |payloads|
    ensures Frames(payloads)[k] == Frame(payloads[k])
    decreases |payloads|
  {
    if k < |payloads| - 1 {
      FramesAt(payloads[..|payloads| - 1], k);
    }
  }

  lemma {:induction false} FramesAppend(a: seq<string>, b: seq<string>)
    ensures Frames(a + b) == Frames(a) + Frames(b)
    decreases |b|
  {
    if b == [] {
      assert a + b == a;
    } else {
      assert (a + b)[..|a + b| - 1] == a + b[..|b| - 1];
      FramesAppend(a, b[..|b| - 1]);
    }
  }
}
