/** The browser's copy of a session's deadline, over every interleaving of
    statements and of responses arriving. */
module SessionCookies {
  import opened Options
  import opened Sessions
  import opened SessionRuns
  import opened SessionDeadlines

  /** The browser drops the cookie at the instant the row expires. */
  predicate Agrees(c: Config, s: State, t: Id) {
    t in s.rows ==> t in s.jar && s.jar[t] == s.rows[t].lastSeen + c.Ttl()
  }

  lemma MaxAgeIsTheTtl(c: Config)
    ensures c.MaxAge() * SECOND == c.Ttl()
  {
  }

  // ----- Which touch is last, and which response -----

  /** The request that wrote the token's last touch, once the step is taken. */
  function WriterAfter(s: State, a: Action, t: Id, w: Option<Id>): Option<Id> {
    if IsTouch(s, a, t) && t in s.rows then Some(a.id) else w
  }

  function LastWriter(c: Config, s: State, actions: seq<Action>, t: Id, w: Option<Id>): Option<Id>
    decreases |actions|
  {
    if actions == [] then w
    else LastWriter(c, Step(c, s, actions[0]), actions[1..], t, WriterAfter(s, actions[0], t, w))
  }

  predicate IsArrival(s: State, a: Action, t: Id) {
    a.Arrive? && a.id in s.replies && s.replies[a.id].token == t
  }

  /** The request whose response to the token arrived last. */
  function ArrivalAfter(s: State, a: Action, t: Id, v: Option<Id>): Option<Id> {
    if IsArrival(s, a, t) then Some(a.id) else v
  }

  function LastArrival(c: Config, s: State, actions: seq<Action>, t: Id, v: Option<Id>): Option<Id>
    decreases |actions|
  {
    if actions == [] then v
    else LastArrival(c, Step(c, s, actions[0]), actions[1..], t, ArrivalAfter(s, actions[0], t, v))
  }

  predicate HasRead(s: State, id: Option<Id>) {
    id.Some? ==> id.value in s.asked
  }

  /** The clock reading of a request, with the sign-in standing for none. */
  function ReadTime(s: State, id: Option<Id>, signedIn: int): int
    requires HasRead(s, id)
  {
    if id.Some? then s.asked[id.value] else signedIn
  }

  /** While the row is there: it holds the reading of the last writer, the cookie is
      that of the last arrival, and each response on its way is its request's. */
  predicate Tracks(c: Config, s: State, t: Id, w: Option<Id>, v: Option<Id>, signedIn: int) {
    && Timed(s) && t in s.issued && HasRead(s, w) && HasRead(s, v)
    && (t in s.rows ==>
          && s.rows[t].lastSeen == ReadTime(s, w, signedIn)
          && t in s.jar && s.jar[t] == ReadTime(s, v, signedIn) + c.Ttl()
          && OwnReplies(c, s, t))
  }

  predicate OwnReplies(c: Config, s: State, t: Id)
    requires Timed(s)
  {
    forall id :: id in s.replies && s.replies[id].token == t ==> s.replies[id].deadline == Some(s.asked[id] + c.Ttl())
  }

  lemma RepliesStayOwn(c: Config, s: State, a: Action, t: Id)
    requires Timed(s) && t in s.issued && t in s.rows && t in Step(c, s, a).rows && OwnReplies(c, s, t)
    ensures Timed(Step(c, s, a)) && OwnReplies(c, Step(c, s, a), t)
  {
    var s' := Step(c, s, a);
    StepIsTimed(c, s, a);
    if a.Finish? && a.id in s.waiting {
      FinishReplies(c, s, a.id, t);
    } else {
      assert forall id :: id in s'.replies && s'.replies[id].token == t ==>
          id in s.replies && s'.replies[id] == s.replies[id];
    }
  }

  lemma FinishReplies(c: Config, s: State, id: Id, t: Id)
    requires Timed(s) && id in s.waiting && t in FinishStep(c, s, id).rows && OwnReplies(c, s, t)
    ensures var s' := FinishStep(c, s, id);
            forall i :: i in s'.replies && s'.replies[i].token == t ==>
                i in s.asked && s'.replies[i].deadline == Some(s.asked[i] + c.Ttl())
  {
    var s' := FinishStep(c, s, id);
    MaxAgeIsTheTtl(c);
    assert s'.replies == s.replies[id := s'.replies[id]];
    if s.waiting[id].token == t {
      assert s'.replies[id] == Reply(t, Some(CookieDeadline(c, s.waiting[id].now)));
    }
  }

  lemma JarFollows(c: Config, s: State, a: Action, t: Id)
    requires Timed(s) && t in s.issued && t in s.rows && t in Step(c, s, a).rows && OwnReplies(c, s, t) && t in s.jar
    ensures var s' := Step(c, s, a);
            t in s'.jar && s'.jar[t] == if IsArrival(s, a, t) then s.asked[a.id] + c.Ttl() else s.jar[t]
  {
  }

  lemma RowsStayGone(c: Config, s: State, a: Action, t: Id)
    requires t in s.issued && t in Step(c, s, a).rows
    ensures t in s.rows
  {
  }

  lemma StepTracks(c: Config, s: State, a: Action, t: Id, w: Option<Id>, v: Option<Id>, signedIn: int)
    requires Tracks(c, s, t, w, v, signedIn)
    ensures Tracks(c, Step(c, s, a), t, WriterAfter(s, a, t, w), ArrivalAfter(s, a, t, v), signedIn)
  {
    StepIsTimed(c, s, a);
    if t in Step(c, s, a).rows {
      RowsStayGone(c, s, a, t);
      OnlyTouchesWrite(c, s, a, t);
      RepliesStayOwn(c, s, a, t);
      JarFollows(c, s, a, t);
    } else {
      IssuedStays(c, s, a, t);
    }
  }

  lemma IssuedStays(c: Config, s: State, a: Action, t: Id)
    requires t in s.issued
    ensures t in Step(c, s, a).issued
  {
  }

  lemma {:induction false} RunTracks(
    c: Config, s: State, actions: seq<Action>, t: Id, w: Option<Id>, v: Option<Id>, signedIn: int)
    requires Tracks(c, s, t, w, v, signedIn)
    ensures Tracks(c, Run(c, s, actions), t, LastWriter(c, s, actions, t, w), LastArrival(c, s, actions, t, v),
            signedIn)
    decreases |actions|
  {
    if actions != [] {
      var a := actions[0];
      StepTracks(c, s, a, t, w, v, signedIn);
      RunTracks(c, Step(c, s, a), actions[1..], t, WriterAfter(s, a, t, w), ArrivalAfter(s, a, t, v), signedIn);
    }
  }

  /** Nothing of the token is waiting to be written or on its way. */
  predicate Quiet(s: State, t: Id) {
    !Waits(s, t) && forall id :: id in s.replies ==> s.replies[id].token != t
  }

  lemma SignInTracks(c: Config, s: State, signIn: Action)
    requires Timed(s) && signIn.SignIn? && signIn.token !in s.issued && Quiet(s, signIn.token)
    ensures Tracks(c, Step(c, s, signIn), signIn.token, None, None, signIn.now)
  {
    MaxAgeIsTheTtl(c);
  }

  /** From sign-in on, after every run of statements and arrivals that leaves the
      row, the cookie and the row agree exactly when the request whose touch was
      written last and the one whose response arrived last have the same clock
      reading. */
  lemma CookiesAgreeExactly(c: Config, s: State, signIn: Action, actions: seq<Action>)
    requires Timed(s) && signIn.SignIn? && signIn.token !in s.issued && Quiet(s, signIn.token)
    ensures var t, s0 := signIn.token, Step(c, s, signIn);
            var s', w, v := Run(c, s0, actions), LastWriter(c, s0, actions, t, None),
                LastArrival(c, s0, actions, t, None);
            && HasRead(s', w) && HasRead(s', v)
            && (t in s'.rows ==>
                  (Agrees(c, s', t) <==> ReadTime(s', w, signIn.now) == ReadTime(s', v, signIn.now)))
  {
    SignInTracks(c, s, signIn);
    RunTracks(c, Step(c, s, signIn), actions, signIn.token, None, None, signIn.now);
  }

  /** No two requests, and no request and the sign-in, have the same reading. */
  predicate ReadingsDiffer(s: State, signedIn: int) {
    && (forall i, j :: i in s.asked && j in s.asked && s.asked[i] == s.asked[j] ==> i == j)
    && (forall i :: i in s.asked ==> s.asked[i] != signedIn)
  }

  /** So, where no two readings are the same, they agree exactly when the last
      response to arrive is that of the last touch written. */
  lemma LastArrivalIsLastWriterExactly(c: Config, s: State, signIn: Action, actions: seq<Action>)
    requires Timed(s) && signIn.SignIn? && signIn.token !in s.issued && Quiet(s, signIn.token)
    requires ReadingsDiffer(Run(c, Step(c, s, signIn), actions), signIn.now)
    ensures var t, s0 := signIn.token, Step(c, s, signIn);
            t in Run(c, s0, actions).rows ==>
              (Agrees(c, Run(c, s0, actions), t)
               <==> LastWriter(c, s0, actions, t, None) == LastArrival(c, s0, actions, t, None))
  {
    CookiesAgreeExactly(c, s, signIn, actions);
  }

  // ----- One request at a time -----

  /** The browser sends the token again only once its last response has arrived. */
  predicate OneAtATime(c: Config, s: State, actions: seq<Action>, t: Id)
    decreases |actions|
  {
    actions == [] ||
    var a := actions[0];
    && (a.Read? && a.token == t ==> Quiet(s, t))
    && OneAtATime(c, Step(c, s, a), actions[1..], t)
  }

  predicate AtMostOneWaits(s: State, t: Id) {
    forall i, j :: i in s.waiting && j in s.waiting && s.waiting[i].token == t == s.waiting[j].token ==> i == j
  }

  predicate NoReply(replies: map<Id, Reply>, t: Id) {
    forall id :: id in replies ==> replies[id].token != t
  }

  /** A response on its way is the last writer's, with nothing waiting behind it, and
      with none on its way the last writer's arrived last. */
  predicate Paced(replies: map<Id, Reply>, waits: bool, t: Id, w: Option<Id>, v: Option<Id>) {
    && (forall i :: i in replies && replies[i].token == t ==> w == Some(i) && !waits)
    && (NoReply(replies, t) ==> w == v)
  }

  /** While the row is there, at most one request of the token is under way. */
  predicate InStep(s: State, t: Id, w: Option<Id>, v: Option<Id>) {
    && Asked(s) && t in s.issued && AtMostOneWaits(s, t)
    && (t in s.rows ==> Paced(s.replies, Waits(s, t), t, w, v))
  }

  lemma OwnReplyPaces(replies: map<Id, Reply>, id: Id, r: Reply, t: Id, w: Option<Id>, v: Option<Id>)
    requires Paced(replies, true, t, w, v) && r.token == t
    ensures Paced(replies[id := r], false, t, Some(id), v)
  {
    assert replies[id := r][id].token == t;
  }

  lemma OtherReplyPaces(
    replies: map<Id, Reply>, id: Id, r: Reply, t: Id, waits: bool, waits': bool, w: Option<Id>, v: Option<Id>)
    requires Paced(replies, waits, t, w, v) && r.token != t && id !in replies && (waits' ==> waits)
    ensures Paced(replies[id := r], waits', t, w, v)
  {
    assert forall i :: i in replies ==> replies[id := r][i] == replies[i];
  }

  lemma FinishOwnWaits(c: Config, s: State, id: Id, t: Id)
    requires AtMostOneWaits(s, t) && id in s.waiting && s.waiting[id].token == t
    ensures Waits(s, t) && !Waits(FinishStep(c, s, id), t) && AtMostOneWaits(FinishStep(c, s, id), t)
  {
    assert FinishStep(c, s, id).waiting == s.waiting - {id};
  }

  lemma FinishOtherWaits(c: Config, s: State, id: Id, t: Id)
    requires AtMostOneWaits(s, t)
    ensures (Waits(FinishStep(c, s, id), t) ==> Waits(s, t)) && AtMostOneWaits(FinishStep(c, s, id), t)
  {
    var s' := FinishStep(c, s, id);
    assert forall i :: i in s'.waiting ==> i in s.waiting && s'.waiting[i] == s.waiting[i];
  }

  lemma FinishOwnInStep(c: Config, s: State, id: Id, t: Id, w: Option<Id>, v: Option<Id>)
    requires InStep(s, t, w, v) && id in s.waiting && s.waiting[id].token == t
    ensures InStep(FinishStep(c, s, id), t, WriterAfter(s, Finish(id), t, w), v)
  {
    var s' := FinishStep(c, s, id);
    StepIsAsked(c, s, Finish(id));
    FinishOwnWaits(c, s, id, t);
    if t in s'.rows {
      assert s'.replies == s.replies[id := s'.replies[id]] && s'.replies[id].token == t;
      OwnReplyPaces(s.replies, id, s'.replies[id], t, w, v);
    }
  }

  lemma FinishOtherInStep(c: Config, s: State, id: Id, t: Id, w: Option<Id>, v: Option<Id>)
    requires InStep(s, t, w, v) && id in s.waiting && s.waiting[id].token != t
    ensures InStep(FinishStep(c, s, id), t, w, v)
  {
    var s' := FinishStep(c, s, id);
    StepIsAsked(c, s, Finish(id));
    FinishOtherWaits(c, s, id, t);
    if t in s'.rows {
      assert s'.replies == s.replies[id := s'.replies[id]] && s'.replies[id].token != t;
      OtherReplyPaces(s.replies, id, s'.replies[id], t, Waits(s, t), Waits(s', t), w, v);
    }
  }

  lemma FinishInStep(c: Config, s: State, id: Id, t: Id, w: Option<Id>, v: Option<Id>)
    requires InStep(s, t, w, v)
    ensures InStep(FinishStep(c, s, id), t, WriterAfter(s, Finish(id), t, w), v)
  {
    if id in s.waiting {
      if s.waiting[id].token == t {
        FinishOwnInStep(c, s, id, t, w, v);
      } else {
        FinishOtherInStep(c, s, id, t, w, v);
      }
    }
  }

  lemma ArriveInStep(s: State, id: Id, t: Id, w: Option<Id>, v: Option<Id>)
    requires InStep(s, t, w, v)
    ensures InStep(ArriveStep(s, id), t, w, ArrivalAfter(s, Arrive(id), t, v))
  {
    var s' := ArriveStep(s, id);
    if t in s.rows && !(id in s.replies && s.replies[id].token == t) {
      assert forall i :: i in s.replies && s.replies[i].token == t ==> i in s'.replies;
      assert NoReply(s'.replies, t) ==> NoReply(s.replies, t);
    }
  }

  lemma ReadInStep(c: Config, s: State, id: Id, token: Id, now: int, t: Id, w: Option<Id>, v: Option<Id>)
    requires InStep(s, t, w, v) && (token == t ==> Quiet(s, t))
    ensures InStep(ReadStep(c, s, id, token, now), t, w, v)
  {
    var s' := ReadStep(c, s, id, token, now);
    StepIsAsked(c, s, Read(id, token, now));
    if id !in s.asked {
      if token == t {
        assert forall i :: i in s'.waiting && s'.waiting[i].token == t ==> i == id;
      } else {
        assert Waits(s', t) ==> Waits(s, t);
        if t in s.rows && token !in s.rows {
          OtherReplyPaces(s.replies, id, s'.replies[id], t, Waits(s, t), Waits(s', t), w, v);
        }
      }
    }
  }

  lemma OthersInStep(c: Config, s: State, a: Action, t: Id, w: Option<Id>, v: Option<Id>)
    requires InStep(s, t, w, v) && (a.SignIn? || a.SignOut? || a.Sweep?)
    ensures InStep(Step(c, s, a), t, w, v)
  {
    var s' := Step(c, s, a);
    assert s'.waiting == s.waiting && s'.replies == s.replies && s'.asked == s.asked;
    IssuedStays(c, s, a, t);
    assert Waits(s', t) == Waits(s, t);
    if t in s'.rows {
      RowsStayGone(c, s, a, t);
    }
  }

  lemma {:induction false} OneAtATimeInStep(
    c: Config, s: State, actions: seq<Action>, t: Id, w: Option<Id>, v: Option<Id>)
    requires InStep(s, t, w, v) && OneAtATime(c, s, actions, t)
    ensures InStep(Run(c, s, actions), t, LastWriter(c, s, actions, t, w), LastArrival(c, s, actions, t, v))
    decreases |actions|
  {
    if actions != [] {
      var a := actions[0];
      if a.Finish? {
        FinishInStep(c, s, a.id, t, w, v);
      } else if a.Arrive? {
        ArriveInStep(s, a.id, t, w, v);
      } else if a.Read? {
        ReadInStep(c, s, a.id, a.token, a.now, t, w, v);
      } else {
        OthersInStep(c, s, a, t, w, v);
      }
      OneAtATimeInStep(c, Step(c, s, a), actions[1..], t, WriterAfter(s, a, t, w), ArrivalAfter(s, a, t, v));
    }
  }

  /** For a browser that waits for each response, a cookie it still holds is
      refused exactly when its row is gone, and the two expire at one instant. */
  lemma BrowserAgreesWithRow(c: Config, s: State, signIn: Action, actions: seq<Action>, now: int)
    requires Timed(s) && signIn.SignIn? && signIn.token !in s.issued && Quiet(s, signIn.token)
    requires OneAtATime(c, Step(c, s, signIn), actions, signIn.token)
    requires var s' := Run(c, Step(c, s, signIn), actions);
             Quiet(s', signIn.token) && signIn.token in s'.jar && now < s'.jar[signIn.token]
    ensures var s' := Run(c, Step(c, s, signIn), actions);
            && (LookupStep(c, s'.rows, signIn.token, now).1.Refused? <==> signIn.token !in s'.rows)
            && (signIn.token in s'.rows ==>
                  forall at :: Expired(c, s'.rows[signIn.token].lastSeen, at) <==> at >= s'.jar[signIn.token])
  {
    var s0 := Step(c, s, signIn);
    assert s0.waiting == s.waiting && s0.replies == s.replies;
    OneAtATimeInStep(c, s0, actions, signIn.token, None, None);
    CookiesAgreeExactly(c, s, signIn, actions);
  }

  // ----- What each response does -----

  /** None of the statements is the request's own. */
  predicate LeavesRequest(actions: seq<Action>, id: Id) {
    Finish(id) !in actions && Arrive(id) !in actions
  }

  function WaitingOf(s: State, id: Id): Option<Waiting> {
    if id in s.waiting then Some(s.waiting[id]) else None
  }

  function ReplyOf(s: State, id: Id): Option<Reply> {
    if id in s.replies then Some(s.replies[id]) else None
  }

  /** A request that has read, with what it waits to do and its response on its way. */
  predicate Has(s: State, id: Id, w: Option<Waiting>, r: Option<Reply>) {
    Asked(s) && id in s.asked && WaitingOf(s, id) == w && ReplyOf(s, id) == r
  }

  lemma StepLeavesRequest(c: Config, s: State, a: Action, id: Id, w: Option<Waiting>, r: Option<Reply>)
    requires Has(s, id, w, r) && a != Finish(id) && a != Arrive(id)
    ensures Has(Step(c, s, a), id, w, r)
  {
  }

  lemma {:induction false} RequestStays(
    c: Config, s: State, actions: seq<Action>, id: Id, w: Option<Waiting>, r: Option<Reply>)
    requires Has(s, id, w, r) && LeavesRequest(actions, id)
    ensures Has(Run(c, s, actions), id, w, r)
    decreases |actions|
  {
    if actions != [] {
      assert actions[0] in actions;
      StepLeavesRequest(c, s, actions[0], id, w, r);
      RequestStays(c, Step(c, s, actions[0]), actions[1..], id, w, r);
    }
  }

  lemma ReadLeaves(c: Config, s: State, id: Id, t: Id, now: int)
    requires Asked(s) && id !in s.asked
    ensures Has(Step(c, s, Read(id, t, now)), id, Second(c, s.rows, t, now),
                if t in s.rows then None else Some(Reply(t, None)))
    ensures Decides(c, s, Read(id, t, now)).None? <==> Second(c, s.rows, t, now) == Some(Touching(t, now))
    ensures Decides(c, s, Read(id, t, now)) == Some(Refused) <==>
            t !in s.rows || Second(c, s.rows, t, now) == Some(Deleting(t))
    ensures Decides(c, s, Read(id, t, now)).Some? && Decides(c, s, Read(id, t, now)).value.Live? ==>
              !Decides(c, s, Read(id, t, now)).value.touched && Second(c, s.rows, t, now).None? && t in s.rows
  {
  }

  lemma FinishLeaves(c: Config, s: State, id: Id, t: Id, w: Option<Waiting>, r: Option<Reply>)
    requires Has(s, id, w, r) && (w.Some? ==> w.value.token == t)
    ensures var s' := Step(c, s, Finish(id));
            var touches := w.Some? && w.value.Touching?;
            && Has(s', id, None,
                   if w.None? then r
                   else Some(Reply(t, if touches && t in s.rows then Some(w.value.now + c.Ttl()) else None)))
            && (touches ==> Decides(c, s, Finish(id)).Some?)
            && (touches && t in s.rows ==>
                Decides(c, s, Finish(id)).value.Live? && Decides(c, s, Finish(id)).value.touched)
            && (touches && t !in s.rows ==> Decides(c, s, Finish(id)).value.Refused?)
  {
    MaxAgeIsTheTtl(c);
  }

  lemma ArriveSets(c: Config, s: State, id: Id, r: Option<Reply>)
    requires ReplyOf(s, id) == r
    ensures Step(c, s, Arrive(id)).jar
            == if r.None? then s.jar
               else if r.value.deadline.Some? then s.jar[r.value.token := r.value.deadline.value]
               else s.jar - {r.value.token}
  {
  }

  /** Whatever comes in between, every request is answered, and its response clears the
      cookie exactly when it was refused, sets it anew, to end a lifetime after the
      request, exactly when it touched the session, and otherwise leaves it. */
  lemma ResponseSetsExactly(
    c: Config, s: State, id: Id, t: Id, now: int, between: seq<Action>, after: seq<Action>)
    requires Asked(s) && id !in s.asked && LeavesRequest(between, id) && LeavesRequest(after, id)
    ensures var here := Run(c, Step(c, s, Read(id, t, now)), between);
            var first, second := Decides(c, s, Read(id, t, now)), Decides(c, here, Finish(id));
            var outcome := if first.Some? then first else second;
            var late := Run(c, Step(c, here, Finish(id)), after);
            && outcome.Some?
            && Step(c, late, Arrive(id)).jar
               == if outcome.value.Refused? then late.jar - {t}
                  else if outcome.value.touched then late.jar[t := now + c.Ttl()] else late.jar
  {
    var read := Step(c, s, Read(id, t, now));
    var w := Second(c, s.rows, t, now);
    var r := if t in s.rows then None else Some(Reply(t, None));
    ReadLeaves(c, s, id, t, now);
    RequestStays(c, read, between, id, w, r);
    var here := Run(c, read, between);
    FinishLeaves(c, here, id, t, w, r);
    var reply := ReplyOf(Step(c, here, Finish(id)), id);
    RequestStays(c, Step(c, here, Finish(id)), after, id, None, reply);
    ArriveSets(c, Run(c, Step(c, here, Finish(id)), after), id, reply);
  }
}
