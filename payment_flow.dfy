/**
 * The simulated UPI payment flow: an amount check, a `user@handle` VPA
 * (virtual payment address) check, the UTR (unique transaction reference)
 * generator and the simulator that runs the three checks in a fixed order
 * and builds a transaction record.
 *
 * The clock and the random source are parameters: `now` is the already
 * formatted UTC timestamp, `entropy` the eight bytes the secure random
 * source would deliver.
 */
module PaymentFlow {
  import opened PyStr
  import opened Base16

  /** The transaction record; one is built fresh by every simulation. */
  datatype SimulatedTransaction = SimulatedTransaction(
    senderVpa: string,
    receiverVpa: string,
    amount: real,
    utr: string,
    status: string,
    timestamp: string)

  /** The `(ok, message)` pair every validator returns. */
  datatype Verdict = Verdict(ok: bool, msg: string)

  /** The default per-transaction UPI limit, in rupees. */
  const AmountLimit: real := 100000.0

  const Ok := "OK"
  const AmountNotPositive := "Amount must be positive"
  const AmountOverLimit := "Amount exceeds default UPI limit (Rs 1,00,000)"
  const NeedUserAtHandle := "Invalid format: need user@handle"
  const InvalidFormat := "Invalid format"
  const UsernameTooShort := "Username too short"
  const InvalidUsernameChars := "Invalid characters in username"
  const InvalidHandle := "Invalid handle"

  const FailedPrefix := "FAILED: "
  const SenderInvalidPrefix := FailedPrefix + "Sender VPA invalid - "
  const ReceiverInvalidPrefix := FailedPrefix + "Receiver VPA invalid - "
  const SuccessStatus := "SUCCESS (SIMULATED)"
  const NoUtr := "N/A"

  /** The number of random bytes behind a UTR. */
  const UtrByteCount := 8

  /** What the secure random source delivers for one UTR. */
  type UtrEntropy = bs: seq<Byte> | |bs| == UtrByteCount witness [0, 0, 0, 0, 0, 0, 0, 0]

  // ---------------------------------------------------------------------
  // Amount

  /**
   * Accepts exactly the amounts in (0, 100000]; the positivity check runs
   * first, so a non-positive amount always gets its message.
   */
  function ValidateAmount(amount: real): (v: Verdict)
    ensures v.ok <==> 0.0 < amount <= AmountLimit
    ensures v.ok ==> v.msg == Ok
    ensures amount <= 0.0 ==> v.msg == AmountNotPositive
    ensures amount > AmountLimit ==> v.msg == AmountOverLimit
  {
    if amount <= 0.0 then Verdict(false, AmountNotPositive)
    else if amount > AmountLimit then Verdict(false, AmountOverLimit)
    else Verdict(true, Ok)
  }

  /** The limit itself is allowed, and anything above it is not. */
  lemma AmountLimitInclusive(excess: real)
    requires excess > 0.0
    ensures ValidateAmount(AmountLimit) == Verdict(true, Ok)
    ensures ValidateAmount(AmountLimit + excess) == Verdict(false, AmountOverLimit)
  {
  }

  /** The console front end substitutes -1 for an amount it cannot parse; that value is always rejected. */
  lemma UnparsableAmountRejected()
    ensures ValidateAmount(-1.0) == Verdict(false, AmountNotPositive)
  {
  }

  // ---------------------------------------------------------------------
  // VPA format

  /** The characters `[a-z0-9._-]` allowed in a user name. */
  predicate UserChar(c: char)
    ensures UserChar(c) ==> c != '@' && !IsSpace(c) && LowerChar(c) == c
  {
    'a' <= c <= 'z' || '0' <= c <= '9' || c == '.' || c == '_' || c == '-'
  }

  /** The characters `[a-z0-9]` allowed in a handle. */
  predicate HandleChar(c: char)
    ensures HandleChar(c) ==> UserChar(c)
  {
    'a' <= c <= 'z' || '0' <= c <= '9'
  }

  /**
   * The VPA check as the code runs it: the '@' test on the raw string, then
   * strip, split at every '@', and the content checks on the two parts,
   * each stripped again and lower-cased.
   */
  function ValidateVpaFormat(vpa: string): (v: Verdict)
    ensures v.ok <==> v.msg == Ok
    ensures '@' !in vpa ==> v == Verdict(false, NeedUserAtHandle)
  {
    if |vpa| == 0 || '@' !in vpa then Verdict(false, NeedUserAtHandle)
    else
      var parts := Split(Strip(vpa), '@');
      if |parts| != 2 then Verdict(false, InvalidFormat)
      else CheckParts(Lower(Strip(parts[0])), Lower(Strip(parts[1])))
  }

  /** The length, user-character and handle checks, in that order. */
  function CheckParts(user: string, handle: string): (v: Verdict)
    ensures v.ok <==> v.msg == Ok
  {
    if |user| < 3 then Verdict(false, UsernameTooShort)
    else if !MatchesClassPlus(UserChar, user) then Verdict(false, InvalidUsernameChars)
    else if !MatchesClassPlus(HandleChar, handle) then Verdict(false, InvalidHandle)
    else Verdict(true, Ok)
  }

  /**
   * On parts that do not end in whitespace, the first failing content rule
   * picks the message.
   */
  lemma CheckPartsOrder(user: string, handle: string)
    requires user == [] || !IsSpace(user[|user| - 1])
    requires handle == [] || !IsSpace(handle[|handle| - 1])
    ensures |user| < 3 ==> CheckParts(user, handle) == Verdict(false, UsernameTooShort)
    ensures |user| >= 3 && !AllIn(UserChar, user) ==> CheckParts(user, handle) == Verdict(false, InvalidUsernameChars)
    ensures |user| >= 3 && AllIn(UserChar, user) && !(|handle| >= 1 && AllIn(HandleChar, handle))
      ==> CheckParts(user, handle) == Verdict(false, InvalidHandle)
    ensures AcceptableParts(user, handle) ==> CheckParts(user, handle) == Verdict(true, Ok)
  {
    MatchesClassPlusStripped(UserChar, user);
    MatchesClassPlusStripped(HandleChar, handle);
  }

  /** The raw input holds exactly one '@', at index `i`. */
  predicate SingleAt(vpa: string, i: int) {
    0 <= i < |vpa| && vpa[i] == '@' && '@' !in vpa[..i] && '@' !in vpa[i + 1..]
  }

  /** The user part read off the raw input: what precedes the '@', trimmed and lower-cased. */
  function UserAt(vpa: string, i: int): string
    requires 0 <= i < |vpa|
  {
    Lower(Strip(vpa[..i]))
  }

  /** The handle part read off the raw input: what follows the '@', trimmed and lower-cased. */
  function HandleAt(vpa: string, i: int): string
    requires 0 <= i < |vpa|
  {
    Lower(Strip(vpa[i + 1..]))
  }

  /** The three content rules: a user of at least 3 characters of `[a-z0-9._-]`, a non-empty handle of `[a-z0-9]`. */
  predicate AcceptableParts(user: string, handle: string) {
    |user| >= 3 && AllIn(UserChar, user) && |handle| >= 1 && AllIn(HandleChar, handle)
  }

  /** A string with two or more '@' fails the part-count check. */
  lemma VpaSeveralAt(vpa: string)
    requires Count(vpa, '@') >= 2
    ensures ValidateVpaFormat(vpa) == Verdict(false, InvalidFormat)
  {
    CountZero(vpa, '@');
    CountStrip(vpa, '@');
  }

  /** Strip-then-split the whole input yields the two sides of its only '@', up to the whitespace around them. */
  lemma StripSplitAt(vpa: string, i: int)
    requires SingleAt(vpa, i)
    ensures var parts := Split(Strip(vpa), '@');
      |parts| == 2 && Strip(parts[0]) == Strip(vpa[..i]) && Strip(parts[1]) == Strip(vpa[i + 1..])
  {
    CountExactlyOnce(vpa, '@', i);
    StripSplitOnce(vpa, '@', i);
    StripPrefix(vpa, i);
    StripSuffix(vpa, i + 1);
  }

  /** With exactly one '@', the content checks run on the trimmed, lower-cased sides of it. */
  lemma VpaAt(vpa: string, i: int)
    requires SingleAt(vpa, i)
    ensures ValidateVpaFormat(vpa) == CheckParts(UserAt(vpa, i), HandleAt(vpa, i))
  {
    StripSplitAt(vpa, i);
  }

  /**
   * With exactly one '@', the first failing content rule picks the message,
   * in the order length, user characters, handle.
   */
  lemma VpaSingleAt(vpa: string, i: int)
    requires SingleAt(vpa, i)
    ensures var user, handle := UserAt(vpa, i), HandleAt(vpa, i);
      && (|user| < 3 ==> ValidateVpaFormat(vpa) == Verdict(false, UsernameTooShort))
      && (|user| >= 3 && !AllIn(UserChar, user) ==> ValidateVpaFormat(vpa) == Verdict(false, InvalidUsernameChars))
      && (|user| >= 3 && AllIn(UserChar, user) && !(|handle| >= 1 && AllIn(HandleChar, handle))
          ==> ValidateVpaFormat(vpa) == Verdict(false, InvalidHandle))
      && (AcceptableParts(user, handle) ==> ValidateVpaFormat(vpa) == Verdict(true, Ok))
  {
    VpaAt(vpa, i);
    StripLower(vpa[..i]);
    StripLower(vpa[i + 1..]);
    CheckPartsOrder(UserAt(vpa, i), HandleAt(vpa, i));
  }

  /**
   * Acceptance, stated on the raw input: there is exactly one '@' and the
   * trimmed, lower-cased parts around it satisfy the content rules.
   */
  lemma VpaAcceptedIff(vpa: string)
    ensures ValidateVpaFormat(vpa).ok <==> exists i :: SingleAt(vpa, i) && AcceptableParts(UserAt(vpa, i), HandleAt(vpa, i))
  {
    CountZero(vpa, '@');
    forall i | SingleAt(vpa, i) ensures Count(vpa, '@') == 1 {
      CountExactlyOnce(vpa, '@', i);
    }
    if Count(vpa, '@') == 1 {
      var i := Find(vpa, '@');
      CountOnce(vpa, '@', i);
      VpaSingleAt(vpa, i);
      if ValidateVpaFormat(vpa).ok {
        assert SingleAt(vpa, i) && AcceptableParts(UserAt(vpa, i), HandleAt(vpa, i));
      }
      if exists j :: SingleAt(vpa, j) && AcceptableParts(UserAt(vpa, j), HandleAt(vpa, j)) {
        var j :| SingleAt(vpa, j) && AcceptableParts(UserAt(vpa, j), HandleAt(vpa, j));
        VpaSingleAt(vpa, j);
      }
    } else if Count(vpa, '@') >= 2 {
      VpaSeveralAt(vpa);
    }
  }

  /** Lower-casing keeps the single '@' in place and leaves the normalised sides unchanged. */
  lemma LowerSingleAt(vpa: string, i: int)
    requires SingleAt(vpa, i)
    ensures SingleAt(Lower(vpa), i)
    ensures UserAt(Lower(vpa), i) == UserAt(vpa, i) && HandleAt(Lower(vpa), i) == HandleAt(vpa, i)
  {
    var l := Lower(vpa);
    var u, h := vpa[..i], vpa[i + 1..];
    assert l[..i] == Lower(u) by { LowerSlice(vpa, 0, i); assert u == vpa[0..i]; }
    assert l[i + 1..] == Lower(h) by { LowerSlice(vpa, i + 1, |vpa|); assert h == vpa[i + 1..|vpa|]; }
    assert '@' !in Lower(u) by { CountZero(u, '@'); CountLower(u, '@'); CountZero(Lower(u), '@'); }
    assert '@' !in Lower(h) by { CountZero(h, '@'); CountLower(h, '@'); CountZero(Lower(h), '@'); }
    assert Lower(Strip(Lower(u))) == Lower(Strip(u)) by { StripLower(u); LowerIdempotent(Strip(u)); }
    assert Lower(Strip(Lower(h))) == Lower(Strip(h)) by { StripLower(h); LowerIdempotent(Strip(h)); }
  }

  /** Lower-casing the whole input changes nothing. */
  lemma VpaLowerInvariant(vpa: string)
    ensures ValidateVpaFormat(Lower(vpa)) == ValidateVpaFormat(vpa)
  {
    var l := Lower(vpa);
    assert Count(l, '@') == Count(vpa, '@') by { CountLower(vpa, '@'); }
    CountZero(vpa, '@');
    CountZero(l, '@');
    if Count(vpa, '@') >= 2 {
      VpaSeveralAt(vpa);
      VpaSeveralAt(l);
    } else if '@' in vpa {
      var i := Find(vpa, '@');
      CountOnce(vpa, '@', i);
      LowerSingleAt(vpa, i);
      VpaAt(vpa, i);
      VpaAt(l, i);
    }
  }

  /** Two inputs that differ only in the case of ASCII letters get the same verdict. */
  lemma VpaCaseInsensitive(a: string, b: string)
    requires Lower(a) == Lower(b)
    ensures ValidateVpaFormat(a) == ValidateVpaFormat(b)
  {
    VpaLowerInvariant(a);
    VpaLowerInvariant(b);
  }

  /** Whitespace around the user part or the handle changes nothing. */
  lemma VpaWhitespaceInsensitive(w1: string, user: string, w2: string, w3: string, handle: string, w4: string)
    requires AllSpace(w1) && AllSpace(w2) && AllSpace(w3) && AllSpace(w4)
    requires '@' !in user && '@' !in handle
    ensures ValidateVpaFormat(w1 + user + w2 + "@" + w3 + handle + w4) == ValidateVpaFormat(user + "@" + handle)
  {
    var u, h := w1 + user + w2, w3 + handle + w4;
    assert w1 + user + w2 + "@" + w3 + handle + w4 == u + "@" + h by { ConcatAround(w1 + user + w2, w3, handle, w4); }
    assert ValidateVpaFormat(u + "@" + h) == CheckParts(Lower(Strip(user)), Lower(Strip(handle))) by {
      NoAtInSpace(w1);
      NoAtInSpace(w2);
      NoAtInSpace(w3);
      NoAtInSpace(w4);
      AtJoin(u, h);
      StripPadded(w1, user, w2);
      StripPadded(w3, handle, w4);
    }
    VpaOfParts(user, handle);
  }

  lemma ConcatAround(u: string, a: string, b: string, c: string)
    ensures u + "@" + a + b + c == u + "@" + (a + b + c)
  {
  }

  /** The sides of the '@' in `u + "@" + h`, and that it is the only one when neither side holds one. */
  lemma AtJoin(u: string, h: string)
    ensures var x := u + "@" + h; x[..|u|] == u && x[|u| + 1..] == h && x[|u|] == '@'
    ensures '@' !in u && '@' !in h ==> var x := u + "@" + h;
      ValidateVpaFormat(x) == CheckParts(Lower(Strip(u)), Lower(Strip(h)))
  {
    var x := u + "@" + h;
    assert x[..|u|] == u;
    assert x[|u| + 1..] == h;
    if '@' !in u && '@' !in h {
      VpaAt(x, |u|);
    }
  }

  lemma NoAtInSpace(w: string)
    requires AllSpace(w)
    ensures '@' !in w
  {
    CountSpace(w, '@');
    CountZero(w, '@');
  }

  // ---------------------------------------------------------------------
  // UTR

  /** A nibble as a lower-case hex digit. */
  function LowerHexDigit(v: nat): char
    requires v < 16
  {
    if v < 10 then ('0' as int + v) as char else ('a' as int + v - 10) as char
  }

  /** `bytes.hex()`, which is what `secrets.token_hex` returns: two lower-case hex digits per byte, high nibble first. */
  function BytesHex(bs: seq<Byte>): (s: string)
    ensures |s| == 2 * |bs|
    ensures forall i :: 0 <= i < |bs| ==> s[2 * i] == LowerHexDigit(bs[i] / 16) && s[2 * i + 1] == LowerHexDigit(bs[i] % 16)
  {
    if bs == [] then []
    else
      var rest := BytesHex(bs[1..]);
      assert forall i :: 1 <= i < |bs| ==> bs[i] == bs[1..][i - 1];
      [LowerHexDigit(bs[0] / 16), LowerHexDigit(bs[0] % 16)] + rest
  }

  /** `bytes.hex().upper()` is the RFC 4648 Base16 encoding. */
  lemma UpperBytesHex(bs: seq<Byte>)
    ensures Upper(BytesHex(bs)) == Encode(bs)
  {
    var h := BytesHex(bs);
    var u, e := Upper(h), Encode(bs);
    forall k | 0 <= k < |e| ensures u[k] == e[k] {
      var i := k / 2;
      assert u[k] == UpperChar(h[k]);
      if k == 2 * i {
        UpperHexDigit(bs[i] / 16);
      } else {
        assert k == 2 * i + 1;
        UpperHexDigit(bs[i] % 16);
      }
    }
  }

  lemma UpperHexDigit(v: nat)
    requires v < 16
    ensures UpperChar(LowerHexDigit(v)) == Digit(v)
  {
  }

  /** A UTR: sixteen characters of the Base16 alphabet. */
  predicate IsUtrToken(s: string) {
    |s| == 2 * UtrByteCount && forall k :: 0 <= k < |s| ==> IsDigit(s[k])
  }

  /** `secrets.token_hex(8).upper()` on the eight bytes the random source drew. */
  function GenerateUtr(entropy: UtrEntropy): (utr: string)
    ensures utr == Encode(entropy)
    ensures IsUtrToken(utr)
  {
    UpperBytesHex(entropy);
    Upper(BytesHex(entropy))
  }

  /** The reference can be decoded back to the bytes it was made from. */
  lemma UtrDecodes(entropy: UtrEntropy)
    ensures Decode(GenerateUtr(entropy)).Some? && Decode(GenerateUtr(entropy)).value == entropy
  {
    DecodeEncode(entropy);
  }

  // ---------------------------------------------------------------------
  // Simulation

  /**
   * The record invariant: a UTR is present exactly on success, it is then a
   * 16-character Base16 token, and every other status is a failure report.
   */
  predicate Consistent(t: SimulatedTransaction)
    ensures Consistent(t) ==> (t.utr == NoUtr <==> FailedPrefix <= t.status)
  {
    assert SuccessStatus[0] == 'S' && FailedPrefix[0] == 'F';
    && (t.utr == NoUtr <==> t.status != SuccessStatus)
    && (t.status == SuccessStatus ==> IsUtrToken(t.utr))
    && (t.status != SuccessStatus ==> FailedPrefix <= t.status)
  }

  /**
   * Sender, receiver and amount are checked in that order and the first
   * failure ends the simulation; only a success draws a UTR.
   */
  function SimulatePayment(senderVpa: string, receiverVpa: string, amount: real, now: string, entropy: UtrEntropy)
    : (t: SimulatedTransaction)
    ensures t.senderVpa == senderVpa && t.receiverVpa == receiverVpa && t.amount == amount && t.timestamp == now
    ensures Consistent(t)
    ensures t.status == SuccessStatus
      <==> ValidateVpaFormat(senderVpa).ok && ValidateVpaFormat(receiverVpa).ok && ValidateAmount(amount).ok
    ensures t.status == SuccessStatus ==> t.utr == Encode(entropy)
    ensures !ValidateVpaFormat(senderVpa).ok ==> t.status == SenderInvalidPrefix + ValidateVpaFormat(senderVpa).msg
    ensures ValidateVpaFormat(senderVpa).ok && !ValidateVpaFormat(receiverVpa).ok
      ==> t.status == ReceiverInvalidPrefix + ValidateVpaFormat(receiverVpa).msg
    ensures ValidateVpaFormat(senderVpa).ok && ValidateVpaFormat(receiverVpa).ok && !ValidateAmount(amount).ok
      ==> t.status == FailedPrefix + ValidateAmount(amount).msg
  {
    var sender := ValidateVpaFormat(senderVpa);
    if !sender.ok then
      FailureRecord(senderVpa, receiverVpa, amount, SenderInvalidPrefix + sender.msg, now)
    else
      var receiver := ValidateVpaFormat(receiverVpa);
      if !receiver.ok then
        FailureRecord(senderVpa, receiverVpa, amount, ReceiverInvalidPrefix + receiver.msg, now)
      else
        var amt := ValidateAmount(amount);
        if !amt.ok then
          FailureRecord(senderVpa, receiverVpa, amount, FailedPrefix + amt.msg, now)
        else
          SimulatedTransaction(senderVpa, receiverVpa, amount, GenerateUtr(entropy), SuccessStatus, now)
  }

  /** A failure record: no UTR, and a status that starts with "FAILED: ". */
  function FailureRecord(senderVpa: string, receiverVpa: string, amount: real, status: string, now: string)
    : (t: SimulatedTransaction)
    requires FailedPrefix <= status
    ensures Consistent(t) && t.status == status && t.utr == NoUtr
    ensures t.senderVpa == senderVpa && t.receiverVpa == receiverVpa && t.amount == amount && t.timestamp == now
  {
    assert status[0] == 'F' && SuccessStatus[0] == 'S';
    SimulatedTransaction(senderVpa, receiverVpa, amount, NoUtr, status, now)
  }

  /**
   * Two simulations of the same request at the same time differ at most in
   * the UTR, and on success their UTRs agree exactly when the random bytes do.
   */
  lemma SimulateOnlyUtrVaries(senderVpa: string, receiverVpa: string, amount: real, now: string, e1: UtrEntropy, e2: UtrEntropy)
    ensures var t1, t2 := SimulatePayment(senderVpa, receiverVpa, amount, now, e1), SimulatePayment(senderVpa, receiverVpa, amount, now, e2);
      && t1.(utr := t2.utr) == t2
      && (t1.status == SuccessStatus ==> (t1.utr == t2.utr <==> e1 == e2))
  {
    EncodeInjective(e1, e2);
  }

  // ---------------------------------------------------------------------
  // Worked examples

  lemma StripPlain(s: string)
    requires s == [] || (!IsSpace(s[0]) && !IsSpace(s[|s| - 1]))
    ensures Strip(s) == s
  {
    StripUnique(s, 0, |s|);
  }

  /** An address built from two '@'-free sides is judged on those sides, trimmed and lower-cased. */
  lemma VpaOfParts(user: string, handle: string)
    requires '@' !in user && '@' !in handle
    ensures ValidateVpaFormat(user + "@" + handle) == CheckParts(Lower(Strip(user)), Lower(Strip(handle)))
  {
    AtJoin(user, handle);
  }

  /** Sides that already satisfy the content rules need no trimming or lower-casing, and are accepted. */
  lemma VpaOfCleanParts(user: string, handle: string)
    requires |user| >= 3 && AllIn(UserChar, user) && |handle| >= 1 && AllIn(HandleChar, handle)
    ensures ValidateVpaFormat(user + "@" + handle) == Verdict(true, Ok)
  {
    StripPlain(user);
    StripPlain(handle);
    assert Lower(user) == user;
    assert Lower(handle) == handle;
    VpaOfParts(user, handle);
  }

  lemma ExampleAliceValid()
    ensures ValidateVpaFormat("alice@bank") == Verdict(true, Ok)
  {
    assert "alice@bank" == "alice" + "@" + "bank";
    VpaOfCleanParts("alice", "bank");
  }

  lemma ExampleBobValid()
    ensures ValidateVpaFormat("bob@bank") == Verdict(true, Ok)
  {
    assert "bob@bank" == "bob" + "@" + "bank";
    VpaOfCleanParts("bob", "bank");
  }

  /** A well-formed request succeeds and carries the encoded UTR. */
  lemma ExampleSuccess(now: string, entropy: UtrEntropy)
    ensures var t := SimulatePayment("alice@bank", "bob@bank", 500.0, now, entropy);
      t.status == SuccessStatus && t.utr == Encode(entropy)
  {
    ExampleAliceValid();
    ExampleBobValid();
  }

  /** An address without '@' fails on the sender check, whatever else is wrong. */
  lemma ExampleSenderWithoutAt(now: string, entropy: UtrEntropy)
    ensures var t := SimulatePayment("al", "bob@bank", 0.0, now, entropy);
      t.status == SenderInvalidPrefix + NeedUserAtHandle && t.utr == NoUtr
  {
  }

  /** Two '@' in a row are a format error, whatever surrounds them. */
  lemma VpaDoubledAt(user: string, handle: string)
    ensures ValidateVpaFormat(user + "@@" + handle) == Verdict(false, InvalidFormat)
  {
    var a := user + "@@" + handle;
    assert multiset(a) == multiset(user) + multiset{'@', '@'} + multiset(handle);
    VpaSeveralAt(a);
  }

  /** A doubled '@' is a format error, not a user-name error. */
  lemma ExampleSenderDoubleAt(now: string, entropy: UtrEntropy)
    ensures var t := SimulatePayment("alice@@bank", "bob@bank", 10.0, now, entropy);
      t.status == SenderInvalidPrefix + InvalidFormat && t.utr == NoUtr
  {
    assert ValidateVpaFormat("alice@@bank") == Verdict(false, InvalidFormat) by {
      assert "alice@@bank" == "alice" + "@@" + "bank";
      VpaDoubledAt("alice", "bank");
    }
  }

  /** The length check comes before the character check. */
  lemma ExampleShortUserBeforeBadChar()
    ensures ValidateVpaFormat("a!@bank") == Verdict(false, UsernameTooShort)
  {
    assert "a!@bank" == "a!" + "@" + "bank";
    VpaOfParts("a!", "bank");
    StripPlain("a!");
  }

  /** Well-formed addresses with a non-positive amount fail on the amount. */
  lemma ExampleAmountNotPositive(now: string, entropy: UtrEntropy)
    ensures SimulatePayment("alice@bank", "bob@bank", 0.0, now, entropy).status == FailedPrefix + AmountNotPositive
  {
    ExampleAliceValid();
    ExampleBobValid();
  }

  /** Well-formed addresses with an amount over the limit fail on the amount. */
  lemma ExampleAmountOverLimit(now: string, entropy: UtrEntropy)
    ensures SimulatePayment("alice@bank", "bob@bank", 250000.0, now, entropy).status == FailedPrefix + AmountOverLimit
  {
    ExampleAliceValid();
    ExampleBobValid();
  }
}
