/** Web sessions in memory and in a bucket on disk
    (internal/aghuser/sessionstorage.go). */
module SessionStorage {
  import opened Bytes
  import opened NetIp
  import opened Wrappers

  type Token = t: seq<Byte> | |t| == 16 witness seq(16, _ => 0)

  type Login = seq<Byte>

  type UserID = nat

  /** The user database: who has a login. */
  type Users = Login -> Option<UserID>

  const SECOND: int := 1_000_000_000

  /** Times are in nanoseconds since the epoch. */
  datatype Session = Session(expire: int, login: Login, token: Token, userID: UserID)

  function Unix(t: int): int {
    t / SECOND
  }

  /** A time cut down to its second. */
  function Truncated(t: int): int {
    Unix(t) * SECOND
  }

  /** The stored form: 4 bytes of expiry, 2 bytes of length, the login.  Both
      numbers are cut to their width. */
  function Encode(s: Session): seq<Byte> {
    BE32(Unix(s.expire) % 0x1_0000_0000) + BE16(|s.login| % 0x1_0000) + s.login
  }

  datatype Decoded = Decoded(expire: int, login: Login)

  function Decode(data: seq<Byte>): Option<Decoded> {
    if |data| < 6 then None
    else if |data[6..]| != Uint16(data[4..6]) then None
    else Some(Decoded(Uint32(data[..4]) * SECOND, data[6..]))
  }

  method BboltEncode(s: Session) returns (data: array<Byte>)
    ensures fresh(data) && data[..] == Encode(s)
    ensures data.Length == 6 + |s.login| && data[6..] == s.login
    ensures data[0] as int * 0x100_0000 + data[1] as int * 0x1_0000 + data[2] as int * 0x100 + data[3] as int
         == s.expire / 1_000_000_000 % 0x1_0000_0000
    ensures data[4] as int * 0x100 + data[5] as int == |s.login| % 0x1_0000
  {
    hide BE32;
    hide BE16;
    BE32Digits(Unix(s.expire) % 0x1_0000_0000);
    BE16Digits(|s.login| % 0x1_0000);
    data := new Byte[6 + |s.login|](_ => 0);
    Put(data, 0, BE32(Unix(s.expire) % 0x1_0000_0000));
    Put(data, 4, BE16(|s.login| % 0x1_0000));
    assert data[..4] == data[0..4] && data[..6] == data[..4] + data[4..6];
    Put(data, 6, s.login);
    assert data[..] == data[..6] + data[6..6 + |s.login|];
    assert data[..6][..4] == BE32(Unix(s.expire) % 0x1_0000_0000) && data[..6][4..] == BE16(|s.login| % 0x1_0000);
  }

  /** A value decodes exactly if its length field tells its length; the expiry
      and the login are read from their places. */
  lemma DecodeReads(v: seq<Byte>)
    ensures Decode(v).Some? <==> |v| >= 6 && v[4] as int * 0x100 + v[5] as int == |v| - 6
    ensures Decode(v).Some? ==>
              && Decode(v).value.login == v[6..]
              && Decode(v).value.expire
              == (v[0] as int * 0x100_0000 + v[1] as int * 0x1_0000 + v[2] as int * 0x100 + v[3] as int) * 1_000_000_000
  {
  }

  /** The session fits its stored form. */
  predicate Storable(s: Session) {
    |s.login| < 0x1_0000 && 0 <= Unix(s.expire) < 0x1_0000_0000
  }

  lemma EncodedParts(s: Session)
    ensures var d := Encode(s);
            d[..4] == BE32(Unix(s.expire) % 0x1_0000_0000) && d[4..6] == BE16(|s.login| % 0x1_0000) && d[6..] == s.login
  {
  }

  /** Decoding gives the session back, to the second, exactly if it fits: a
      longer login is unreadable and a time out of range comes back changed. */
  lemma DecodeAfterEncode(s: Session)
    ensures Decode(Encode(s)) == Some(Decoded(Truncated(s.expire), s.login)) <==> Storable(s)
    ensures |s.login| >= 0x1_0000 ==> Decode(Encode(s)) == None
  {
    EncodedParts(s);
    Uint32OfBE32(Unix(s.expire) % 0x1_0000_0000);
    Uint16OfBE16(|s.login| % 0x1_0000);
  }

  /** Whatever decodes encodes to the very bytes it came from. */
  lemma EncodeAfterDecode(data: seq<Byte>, t: Token, id: UserID)
    requires Decode(data).Some?
    ensures Encode(Session(Decode(data).value.expire, Decode(data).value.login, t, id)) == data
  {
    BE32OfUint32(data[..4]);
    BE16OfUint16(data[4..6]);
    assert data == data[..4] + data[4..6] + data[6..];
  }

  type Bucket = map<Token, seq<Byte>>

  /** A stored value that loading keeps. */
  predicate Live(v: seq<Byte>, now: int, users: Users) {
    Decode(v).Some? && now <= Decode(v).value.expire && users(Decode(v).value.login).Some?
  }

  /** The session that a live value stands for. */
  function Load(t: Token, v: seq<Byte>, users: Users): Session
    requires Decode(v).Some? && users(Decode(v).value.login).Some?
  {
    Session(Decode(v).value.expire, Decode(v).value.login, t, users(Decode(v).value.login).value)
  }

  ghost function Loaded(b: Bucket, now: int, users: Users): map<Token, Session> {
    map t | t in b && Live(b[t], now, users) :: Load(t, b[t], users)
  }

  /** A token is loaded exactly if its value decodes, has not expired and names a
      known user; the session is that user's, with what the value says. */
  lemma LoadedReads(b: Bucket, now: int, users: Users, t: Token)
    ensures t in Loaded(b, now, users) <==>
              t in b && |b[t]| >= 6 && b[t][4] as int * 0x100 + b[t][5] as int == |b[t]| - 6
              && now <= (b[t][0] as int * 0x100_0000 + b[t][1] as int * 0x1_0000 + b[t][2] as int * 0x100 + b[t][3] as int)
                        * 1_000_000_000
              && users(b[t][6..]).Some?
    ensures t in Loaded(b, now, users) ==>
              Loaded(b, now, users)[t]
              == Session((b[t][0] as int * 0x100_0000 + b[t][1] as int * 0x1_0000 + b[t][2] as int * 0x100 + b[t][3] as int)
                         * 1_000_000_000, b[t][6..], t, users(b[t][6..]).value)
  {
    if t in b {
      DecodeReads(b[t]);
    }
  }

  ghost function LivePart(b: Bucket, now: int, users: Users): Bucket {
    map t | t in b && Live(b[t], now, users) :: b[t]
  }

  lemma DroppingDead(b: Bucket, now: int, users: Users)
    ensures b - (set t | t in b && !Live(b[t], now, users)) == LivePart(b, now, users)
  {
  }

  /** The same tokens, and each stored value encodes the session in memory. */
  ghost predicate Agree(sessions: map<Token, Session>, b: Bucket) {
    && sessions.Keys == b.Keys
    && forall t :: t in sessions ==> b[t] == Encode(sessions[t]) && sessions[t].token == t
  }

  /** What survives a restart: the sessions that have not expired at the
      precision of seconds and whose user is known, cut to the second. */
  ghost function Restarted(sessions: map<Token, Session>, now: int, users: Users): map<Token, Session> {
    map t | t in sessions && now <= Truncated(sessions[t].expire) && users(sessions[t].login).Some? ::
      Session(Truncated(sessions[t].expire), sessions[t].login, t, users(sessions[t].login).value)
  }

  ghost predicate AllStorable(sessions: map<Token, Session>) {
    forall t :: t in sessions ==> Storable(sessions[t])
  }

  lemma LoadedIsRestarted(sessions: map<Token, Session>, b: Bucket, now: int, users: Users)
    requires Agree(sessions, b) && AllStorable(sessions)
    ensures Loaded(b, now, users) == Restarted(sessions, now, users)
    ensures AllStorable(Restarted(sessions, now, users))
  {
    forall t | t in sessions ensures Decode(b[t]) == Some(Decoded(Truncated(sessions[t].expire), sessions[t].login)) {
      DecodeAfterEncode(sessions[t]);
    }
  }

  /** A session whose login is too long for its stored form is lost. */
  lemma LongLoginIsLost(sessions: map<Token, Session>, b: Bucket, now: int, users: Users, t: Token)
    requires Agree(sessions, b) && t in sessions && |sessions[t].login| >= 0x1_0000
    ensures t !in Loaded(b, now, users)
  {
  }

  lemma NothingStored(now: int, users: Users)
    ensures Loaded(map[], now, users) == map[] && LivePart(map[], now, users) == map[]
  {
  }

  /** Loading agrees with the live part of the bucket. */
  lemma LoadedAgrees(b: Bucket, now: int, users: Users)
    ensures Agree(Loaded(b, now, users), LivePart(b, now, users))
  {
    forall t | t in b && Live(b[t], now, users) ensures Encode(Load(t, b[t], users)) == b[t] {
      EncodeAfterDecode(b[t], t, users(Decode(b[t]).value.login).value);
    }
  }

  /** The calls of a run; `OpRestart` is a new process on the same disk. */
  datatype Op =
    | OpNew(token: Token, login: Login, id: UserID, now: int, dbOk: bool)
    | OpFind(token: Token, now: int, dbOk: bool)
    | OpDelete(token: Token, dbOk: bool)
    | OpRestart(now: int)

  /** What a call does to the set of sessions, with no disk in sight. */
  ghost function Step(sessions: map<Token, Session>, op: Op, users: Users, ttl: nat): map<Token, Session> {
    match op
    case OpNew(t, login, id, now, ok) => if ok then sessions[t := Session(now + ttl, login, t, id)] else sessions
    case OpFind(t, now, ok) =>
      if t in sessions && now > sessions[t].expire && ok then sessions - {t} else sessions
    case OpDelete(t, ok) => if ok then sessions - {t} else sessions
    case OpRestart(now) => Restarted(sessions, now, users)
  }

  ghost function RunSpec(sessions: map<Token, Session>, ops: seq<Op>, users: Users, ttl: nat): map<Token, Session> {
    if ops == [] then sessions
    else Step(RunSpec(sessions, ops[..|ops| - 1], users, ttl), ops[|ops| - 1], users, ttl)
  }

  /** Logins and expiry times that fit their stored form. */
  ghost predicate Fits(op: Op, ttl: nat) {
    op.OpNew? ==> Storable(Session(op.now + ttl, op.login, op.token, op.id))
  }

  datatype Error = TxFailed | NoBucket

  class Storage {
    var sessions: map<Token, Session>
    var bucket: Option<Bucket>
    const users: Users
    const ttl: nat

    ghost function Disk(): Bucket
      reads this
    {
      if bucket.Some? then bucket.value else map[]
    }

    ghost predicate Valid()
      reads this
    {
      Agree(sessions, Disk())
    }

    constructor (bucket: Option<Bucket>, users: Users, ttl: nat)
      ensures this.bucket == bucket && this.users == users && this.ttl == ttl && sessions == map[]
    {
      this.bucket, this.users, this.ttl := bucket, users, ttl;
      sessions := map[];
    }

    /** `loadSessions`.  When nothing has to be erased the transaction is rolled
        back; a failed one leaves the disk as it is. */
    method LoadSessions(now: int, dbOk: bool) returns (err: Option<Error>)
      requires sessions == map[]
      modifies this
      ensures err.None? ==> Valid() && sessions == Loaded(old(Disk()), now, users)
      ensures err.None? ==> Disk() == LivePart(old(Disk()), now, users)
      ensures err.Some? ==> bucket == old(bucket)
      ensures err.Some? <==> !dbOk && exists t :: t in old(Disk()) && !Live(old(Disk())[t], now, users)
    {
      hide Live;
      hide Encode;
      hide Decode;
      hide Load;
      hide LivePart;
      LoadedAgrees(Disk(), now, users);
      if bucket.None? {
        NothingStored(now, users);
        return None;
      }
      var b := bucket.value;
      var invalid := ProcessSessions(b, now);
      var kept := b - invalid;
      DroppingDead(b, now, users);
      if invalid == {} {
        assert kept == b;
        return None;
      }
      assert exists t :: t in invalid;
      if !dbOk {
        return Some(TxFailed);
      }
      bucket := Some(kept);
      return None;
    }

    /** Goes through the bucket in any order: loads what is live, lists the rest. */
    method ProcessSessions(b: Bucket, now: int) returns (invalid: set<Token>)
      requires sessions == map[]
      modifies this`sessions
      ensures invalid == set t | t in b && !Live(b[t], now, users)
      ensures sessions == Loaded(b, now, users)
    {
      hide Decode;
      hide Encode;
      var rest := b.Keys;
      invalid := {};
      while rest != {}
        invariant rest <= b.Keys && invalid == set t | t in b && t !in rest && !Live(b[t], now, users)
        invariant forall t :: t in sessions <==> t in b && t !in rest && Live(b[t], now, users)
        invariant forall t :: t in sessions ==> sessions[t] == Load(t, b[t], users)
      {
        var t :| t in rest;
        rest := rest - {t};
        var d := Decode(b[t]);
        if d.None? || now > d.value.expire || users(d.value.login).None? {
          invalid := invalid + {t};
        } else {
          sessions := sessions[t := Session(d.value.expire, d.value.login, t, users(d.value.login).value)];
        }
      }
    }

    /** `token` is the random token drawn for the session. */
    method New(token: Token, login: Login, id: UserID, now: int, dbOk: bool) returns (r: Result<Session, Error>)
      requires Valid()
      modifies this
      ensures Valid() && (r.Ok? <==> dbOk)
      ensures r.Ok? ==> && r.value == Session(now + ttl, login, token, id)
                        && sessions == old(sessions)[token := r.value]
      ensures r.Err? ==> sessions == old(sessions) && bucket == old(bucket)
    {
      var s := Session(now + ttl, login, token, id);
      var err := Store(s, dbOk);
      if err.Some? {
        return Err(err.value);
      }
      sessions := sessions[token := s];
      return Ok(s);
    }

    method Store(s: Session, dbOk: bool) returns (err: Option<Error>)
      modifies this`bucket
      ensures err.None? <==> dbOk
      ensures dbOk ==> Disk() == old(Disk())[s.token := Encode(s)]
      ensures !dbOk ==> bucket == old(bucket)
    {
      var b := if bucket.Some? then bucket.value else map[];
      var data := BboltEncode(s);
      if !dbOk {
        return Some(TxFailed);
      }
      bucket := Some(b[s.token := data[..]]);
      return None;
    }

    /** An expired session is deleted on sight, from both places or from none. */
    method FindByToken(t: Token, now: int, dbOk: bool) returns (r: Result<Option<Session>, Error>)
      requires Valid()
      modifies this
      ensures Valid()
      ensures var had := t in old(sessions);
              var expired := had && now > old(sessions)[t].expire;
              && (had && !expired ==> r == Ok(Some(old(sessions)[t])))
              && (!had ==> r == Ok(None))
              && (expired ==> r == if dbOk then Ok(None) else Err(TxFailed))
              && sessions == (if expired && dbOk then old(sessions) - {t} else old(sessions))
    {
      if t !in sessions {
        return Ok(None);
      }
      var s := sessions[t];
      if now > s.expire {
        var err := DeleteByToken(t, dbOk);
        if err.Some? {
          return Err(err.value);
        }
        return Ok(None);
      }
      return Ok(Some(s));
    }

    method DeleteByToken(t: Token, dbOk: bool) returns (err: Option<Error>)
      requires Valid()
      modifies this
      ensures Valid()
      ensures err.None? <==> old(bucket).Some? && dbOk
      ensures err.None? ==> sessions == old(sessions) - {t}
      ensures err.Some? ==> && sessions == old(sessions) && bucket == old(bucket)
                            && err.value == if bucket.None? then NoBucket else TxFailed
    {
      err := Remove(t, dbOk);
      if err.Some? {
        return;
      }
      sessions := sessions - {t};
    }

    method Remove(t: Token, dbOk: bool) returns (err: Option<Error>)
      modifies this`bucket
      ensures err.None? <==> old(bucket).Some? && dbOk
      ensures err.None? ==> Disk() == old(Disk()) - {t}
      ensures err.Some? ==> bucket == old(bucket) && err.value == if bucket.None? then NoBucket else TxFailed
    {
      if bucket.None? {
        return Some(NoBucket);
      }
      if !dbOk {
        return Some(TxFailed);
      }
      bucket := Some(bucket.value - {t});
      return None;
    }
  }

  /** A whole run, restarts and failed transactions included: memory and disk
      agree all the time, and if everything fits its stored form the sessions
      are those of the specification. */
  method Run(ds: Storage, ops: seq<Op>) returns (last: Storage)
    requires ds.Valid()
    modifies ds
    ensures last.Valid() && last.users == ds.users && last.ttl == ds.ttl
    ensures old(AllStorable(ds.sessions)) && (forall op :: op in ops ==> Fits(op, ds.ttl)) ==>
              last.sessions == RunSpec(old(ds.sessions), ops, ds.users, ds.ttl)
  {
    hide Storage.Valid;
    hide Step;
    hide AllStorable;
    hide Fits;
    ghost var fit := AllStorable(ds.sessions) && forall op :: op in ops ==> Fits(op, ds.ttl);
    last := ds;
    for i := 0 to |ops|
      invariant last == ds || fresh(last)
      invariant last.Valid() && last.users == ds.users && last.ttl == ds.ttl
      invariant fit ==> AllStorable(last.sessions)
      invariant fit ==> last.sessions == RunSpec(old(ds.sessions), ops[..i], ds.users, ds.ttl)
    {
      assert ops[..i + 1][..i] == ops[..i];
      assert ops[i] in ops;
      last := RunOne(last, ops[i]);
    }
    assert ops[..|ops|] == ops;
  }

  method RunOne(ds: Storage, op: Op) returns (next: Storage)
    requires ds.Valid()
    modifies ds
    ensures next.Valid() && next.users == ds.users && next.ttl == ds.ttl
    ensures old(AllStorable(ds.sessions)) && Fits(op, ds.ttl) ==>
              AllStorable(next.sessions) && next.sessions == Step(old(ds.sessions), op, ds.users, ds.ttl)
    ensures next == ds || fresh(next)
  {
    hide Storable;
    hide Encode;
    next := ds;
    match op
    case OpNew(t, login, id, now, ok) => var r := ds.New(t, login, id, now, ok);
    case OpFind(t, now, ok) => var r := ds.FindByToken(t, now, ok);
    case OpDelete(t, ok) =>
      var err := ds.DeleteByToken(t, ok);
      if err.Some? && ok {
        assert ds.sessions == ds.sessions - {t};
      }
    case OpRestart(now) =>
      if AllStorable(ds.sessions) {
        LoadedIsRestarted(ds.sessions, ds.Disk(), now, ds.users);
      }
      next := new Storage(ds.bucket, ds.users, ds.ttl);
      var err := next.LoadSessions(now, true);
  }
}
