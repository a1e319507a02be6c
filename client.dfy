/** The cluster as the job sees it: a client that answers each request with
    the next reply of a script, and remembers every request it was sent. */
module Client {
  import opened Responses
  import opened Templates

  /** The two requests the job issues: the existence check of an index, and
      its creation with the settings/mapping document of a template. */
  datatype Request = ExistsRequest(index: string) | CreateRequest(index: string, template: Template)

  /** The reply the cluster gives as the `j`-th answer of a script: once the
      script runs out no answer comes back, as when a request times out. */
  function ReplyAt(script: seq<Reply>, j: nat): (reply: Reply)
    ensures j < |script| ==> reply == script[j]
    ensures j >= |script| ==> reply.Unreachable?
  {
    if j < |script| then script[j] else Unreachable("no reply")
  }

  /** `s` less its first `n` elements (all of them when it is shorter). */
  function Drop<T>(s: seq<T>, n: nat): (r: seq<T>)
    ensures |r| == if n <= |s| then |s| - n else 0
    ensures forall j: nat :: j < |r| ==> r[j] == s[n + j]
  {
    if n <= |s| then s[n..] else []
  }

  function Repeat<T>(x: T, n: nat): (r: seq<T>)
    ensures |r| == n && forall j :: 0 <= j < n ==> r[j] == x
  {
    if n == 0 then [] else Repeat(x, n - 1) + [x]
  }

  lemma ReplyAtDrop(script: seq<Reply>, n: nat, j: nat)
    ensures ReplyAt(Drop(script, n), j) == ReplyAt(script, n + j)
  {
  }

  lemma DropDrop<T>(s: seq<T>, n: nat, m: nat)
    ensures Drop(Drop(s, n), m) == Drop(s, n + m)
  {
  }

  class Cluster {
    /** The replies still to be given, in order. */
    var replies: seq<Reply>
    /** Every request received so far, in order. */
    var sent: seq<Request>

    constructor (script: seq<Reply>)
      ensures replies == script && sent == []
    {
      replies := script;
      sent := [];
    }

    /** One round trip: the request is recorded and answered with the next
      scripted reply. */
    method Send(request: Request) returns (reply: Reply)
      modifies this
      ensures reply == ReplyAt(old(replies), 0)
      ensures replies == Drop(old(replies), 1)
      ensures sent == old(sent) + [request]
    {
      sent := sent + [request];
      if replies == [] {
        reply := Unreachable("no reply");
      } else {
        reply := replies[0];
        replies := replies[1..];
      }
    }
  }
}
