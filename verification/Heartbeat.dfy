/**
 * A JSON response streamed with heartbeats: an opening object with the key `_h`,
 * one character per tick while the handler works, and the handler's response
 * object spliced in at the end.
 */
module Heartbeat {
  import opened Json

  /** The handler resolves with a response object, or throws and an error object is sent. */
  datatype Outcome = Resolves(reply: seq<Member>) | Throws(reply: seq<Member>)

  function Ones(n: nat): (s: string)
    ensures |s| == n
  {
    seq(n, i => '1')
  }

  /** String.replace with a string pattern and an empty replacement: the first occurrence goes. */
  function RemoveFirst(s: string, c: char): string {
    if s == [] then [] else if s[0] == c then s[1..] else [s[0]] + RemoveFirst(s[1..], c)
  }

  const OPENING := "{\"_h\":\""

  /** What ends the body: the heartbeat string is closed and the object's text goes on. */
  function Terminator(reply: seq<Member>): string {
    "\"," + RemoveFirst(Stringify(Obj(reply)), '{')
  }

  function Body(ticks: nat, reply: seq<Member>): string {
    OPENING + Ones(ticks) + Terminator(reply)
  }

  lemma {:induction false} OnesNeedNoEscape(n: nat)
    ensures Escape(Ones(n)) == Ones(n)
  {
    if n > 0 {
      OnesNeedNoEscape(n - 1);
      assert Ones(n)[1..] == Ones(n - 1);
      assert Ones(n) == ['1'] + Ones(n - 1);
    }
  }

  /** The object the client sees: the heartbeat member, then the response's own. */
  function Combined(ticks: nat, reply: seq<Member>): Json {
    Obj([Member("_h", Str(Ones(ticks)))] + reply)
  }

  lemma HeartbeatKeyText()
    ensures Quote("_h") == "\"_h\""
  {
    assert "_h"[1..] == "h" && "h"[1..] == "";
    assert Escape("h") == EscapeChar('h') + Escape("");
    assert Escape("_h") == EscapeChar('_') + Escape("h");
  }

  lemma Splice(beats: string, members: string)
    ensures "{" + ("\"_h\"" + (":" + ((['"'] + beats + ['"']) + ("," + members))))
         == OPENING + beats + ("\"," + members)
  {
    assert "{" + ("\"_h\"" + (":" + ['"'])) == OPENING;
    assert ['"'] + "," == "\",";
  }

  /** With a response that has members the body is the text of one object. */
  lemma BodyIsOneObject(ticks: nat, reply: seq<Member>)
    requires reply != []
    ensures Body(ticks, reply) == Stringify(Combined(ticks, reply))
  {
    var all := [Member("_h", Str(Ones(ticks)))] + reply;
    assert all[0] == Member("_h", Str(Ones(ticks))) && all[1..] == reply;
    OnesNeedNoEscape(ticks);
    HeartbeatKeyText();
    TerminatorText(reply);
    Splice(Ones(ticks), MembersText(reply));
    assert AfterMember(all[1..]) == "," + MembersText(reply);
    assert Stringify(all[0].value) == ['"'] + Ones(ticks) + ['"'];
    assert MembersText(all) == Quote("_h") + (":" + (Stringify(all[0].value) + ("," + MembersText(reply))));
    assert Stringify(Combined(ticks, reply)) == "{" + MembersText(all);
  }

  lemma TerminatorText(reply: seq<Member>)
    ensures Terminator(reply) == "\"," + MembersText(reply)
  {
    assert Stringify(Obj(reply))[0] == '{' && Stringify(Obj(reply))[1..] == MembersText(reply);
  }

  /** Without members a comma is left before the closing brace, and the body is no JSON text. */
  lemma EmptyObjectBreaksTheBody(ticks: nat, v: Json)
    requires Printable(v)
    ensures Body(ticks, []) != Stringify(v)
  {
    var body := Body(ticks, []);
    assert RemoveFirst(Stringify(Obj([])), '{') == "}";
    assert body[0] == '{' && body[|body| - 1] == '}' && body[|body| - 2] == ',';
    FirstCharTellsKind(v);
    if v.Obj? {
      BracedBy(v.members);
      var text := MembersText(v.members);
      assert Stringify(v) == "{" + text;
      if v.members != [] {
        assert Stringify(v)[|Stringify(v)| - 2] == text[|text| - 2];
      }
    }
  }

  /** The body is the text of a JSON value if and only if the response object is not empty. */
  lemma BodyIsJsonIffNotEmpty(ticks: nat, reply: seq<Member>)
    requires MembersPrintable(reply)
    ensures (exists v :: Printable(v) && Body(ticks, reply) == Stringify(v)) <==> reply != []
  {
    if reply != [] {
      BodyIsOneObject(ticks, reply);
      var v := Combined(ticks, reply);
      var all := [Member("_h", Str(Ones(ticks)))] + reply;
      forall i | 0 <= i < |all| ensures Printable(all[i].value) {
        if i > 0 {
          assert all[i] == reply[i - 1];
        }
      }
      assert Printable(v) && Body(ticks, reply) == Stringify(v);
    } else {
      forall v | Printable(v) ensures Body(ticks, reply) != Stringify(v) {
        EmptyObjectBreaksTheBody(ticks, v);
      }
    }
  }

  /** And then a reader can recover the tick count and the response from it. */
  lemma BodyDeterminesTheResponse(ticks: nat, reply: seq<Member>, ticks': nat, reply': seq<Member>)
    requires reply != [] && reply' != [] && MembersPrintable(reply) && MembersPrintable(reply')
    ensures Body(ticks, reply) == Body(ticks', reply') <==> ticks == ticks' && reply == reply'
  {
    BodyIsOneObject(ticks, reply);
    BodyIsOneObject(ticks', reply');
    var a := [Member("_h", Str(Ones(ticks)))] + reply;
    var b := [Member("_h", Str(Ones(ticks')))] + reply';
    assert forall i :: 0 <= i < |reply| ==> a[i + 1] == reply[i];
    assert forall i :: 0 <= i < |reply'| ==> b[i + 1] == reply'[i];
    SameTextSameValue(Obj(a), Obj(b));
    if a == b {
      assert a[0] == b[0] && a[1..] == reply && b[1..] == reply';
      assert |Ones(ticks)| == |Ones(ticks')|;
    }
  }

  class Response {
    var body: string
    var finished: bool
    var writesAfterEnd: nat

    constructor ()
      ensures body == "" && !finished && writesAfterEnd == 0
    {
      body, finished, writesAfterEnd := "", false, 0;
    }

    method Write(s: string)
      modifies this
      ensures finished == old(finished)
      ensures body == if old(finished) then old(body) else old(body) + s
      ensures writesAfterEnd == old(writesAfterEnd) + if old(finished) then 1 else 0
    {
      if finished {
        writesAfterEnd := writesAfterEnd + 1;
      } else {
        body := body + s;
      }
    }

    method End(s: string)
      modifies this
      ensures finished
      ensures body == if old(finished) then old(body) else old(body) + s
      ensures writesAfterEnd == old(writesAfterEnd) + if old(finished) then 1 else 0
    {
      Write(s);
      finished := true;
    }

    /** The interval's callback. */
    method Tick()
      modifies this
      ensures finished == old(finished) && writesAfterEnd == old(writesAfterEnd)
      ensures body == if old(finished) then old(body) else old(body) + "1"
    {
      if !finished {
        Write("1");
      }
    }

    /**
     * `before` ticks fire before the handler settles and `after` would fire later;
     * the interval is cleared only when it resolved.
     */
    method HandleWithHeartbeat(before: nat, outcome: Outcome, after: nat)
      requires body == "" && !finished && writesAfterEnd == 0
      modifies this
      ensures finished && writesAfterEnd == 0
      ensures body == Body(before, outcome.reply)
    {
      Write(OPENING);
      for i := 0 to before
        invariant !finished && writesAfterEnd == 0 && body == OPENING + Ones(i)
      {
        Tick();
        assert Ones(i) + "1" == Ones(i + 1);
      }
      var intervalRuns := outcome.Throws?;
      End(Terminator(outcome.reply));
      if intervalRuns {
        for i := 0 to after
          invariant finished && writesAfterEnd == 0 && body == Body(before, outcome.reply)
        {
          Tick();
        }
      }
    }
  }
}
