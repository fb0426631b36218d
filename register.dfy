/** The POST `/` handler of `backend/src/routes/register.ts`: three checks in
    order, of which only the first two can reject. */
module RegisterRoute {
  import UserStore

  /** The body sent back: `{ success: false, errorCode, message }` or
      `{ success: true }`. */
  datatype Reply = Failure(errorCode: int, message: string) | Success

  /** A reply together with whether the handler logged that the password
      meets the strength rule (the only thing that rule does). */
  datatype Outcome = Outcome(reply: Reply, loggedStrong: bool)

  const InvalidEmailMessage: string := "Invalid Email!"
  const AlreadyRegisteredMessage: string := "Email Already Registered!"

  /** How many characters of `s` lie in the class `[lo-hi]`: the length of
      the array `s.match(/[lo-hi]/g)` returns, with `null` counted as 0. */
  function CountInRange(s: string, lo: char, hi: char): (n: nat)
    ensures n <= |s|
  {
    if |s| == 0 then 0
    else (if lo <= s[0] <= hi then 1 else 0) + CountInRange(s[1..], lo, hi)
  }

  /** Counting is additive over concatenation, so the count is the number
      of characters of the class wherever they stand. */
  lemma {:induction false} CountConcat(a: string, b: string, lo: char, hi: char)
    ensures CountInRange(a + b, lo, hi) == CountInRange(a, lo, hi) + CountInRange(b, lo, hi)
  {
    if |a| > 0 {
      assert (a + b)[1..] == a[1..] + b;
      CountConcat(a[1..], b, lo, hi);
    } else {
      assert a + b == b;
    }
  }

  /** A character outside the class, inserted anywhere, changes no count:
      lower-case letters and symbols count neither as digits nor capitals. */
  lemma CountIgnoresOutside(a: string, c: char, b: string, lo: char, hi: char)
    requires !(lo <= c <= hi)
    ensures CountInRange(a + [c] + b, lo, hi) == CountInRange(a + b, lo, hi)
  {
    CountConcat(a + [c], b, lo, hi);
    CountConcat(a, [c], lo, hi);
    CountConcat(a, b, lo, hi);
  }

  /** A character inside the class, inserted anywhere, adds exactly one. */
  lemma CountCountsInside(a: string, c: char, b: string, lo: char, hi: char)
    requires lo <= c <= hi
    ensures CountInRange(a + [c] + b, lo, hi) == CountInRange(a + b, lo, hi) + 1
  {
    CountConcat(a + [c], b, lo, hi);
    CountConcat(a, [c], lo, hi);
    CountConcat(a, b, lo, hi);
  }

  /** Some character of `s` lies in `[lo-hi]`. */
  predicate SomeInRange(s: string, lo: char, hi: char)
  {
    exists i :: 0 <= i < |s| && lo <= s[i] <= hi
  }

  /** Two different positions of `s` hold characters in `[lo-hi]`. */
  predicate TwoInRange(s: string, lo: char, hi: char)
  {
    exists i, j :: 0 <= i < j < |s| && lo <= s[i] <= hi && lo <= s[j] <= hi
  }

  /** The regex finds a match iff some character is in the class. */
  lemma {:induction false} CountPositive(s: string, lo: char, hi: char)
    ensures CountInRange(s, lo, hi) >= 1 <==> SomeInRange(s, lo, hi)
  {
    if |s| > 0 {
      CountPositive(s[1..], lo, hi);
      if SomeInRange(s, lo, hi) && !(lo <= s[0] <= hi) {
        var i :| 0 <= i < |s| && lo <= s[i] <= hi;
        assert s[1..][i - 1] == s[i];
      }
      if SomeInRange(s[1..], lo, hi) {
        var i :| 0 <= i < |s[1..]| && lo <= s[1..][i] <= hi;
        assert s[i + 1] == s[1..][i];
      }
    }
  }

  /** The regex finds at least two matches iff two positions hold
      characters of the class. */
  lemma {:induction false} CountAtLeastTwo(s: string, lo: char, hi: char)
    ensures CountInRange(s, lo, hi) >= 2 <==> TwoInRange(s, lo, hi)
  {
    if |s| > 0 {
      var t := s[1..];
      CountAtLeastTwo(t, lo, hi);
      CountPositive(t, lo, hi);
      if CountInRange(s, lo, hi) >= 2 {
        if lo <= s[0] <= hi {
          var k :| 0 <= k < |t| && lo <= t[k] <= hi;
          assert s[k + 1] == t[k];
        } else {
          var i, j :| 0 <= i < j < |t| && lo <= t[i] <= hi && lo <= t[j] <= hi;
          assert s[i + 1] == t[i] && s[j + 1] == t[j];
        }
      }
      if TwoInRange(s, lo, hi) {
        var i, j :| 0 <= i < j < |s| && lo <= s[i] <= hi && lo <= s[j] <= hi;
        assert t[j - 1] == s[j];
        if i == 0 {
          assert SomeInRange(t, lo, hi);
        } else {
          assert t[i - 1] == s[i];
          assert TwoInRange(t, lo, hi);
        }
      }
    }
  }

  /** The strength rule: at least 10 characters, at least 2 in `0-9` and at
      least 2 in `A-Z`; equivalently, two positions hold digits and two
      positions hold capitals. */
  predicate StrongPassword(password: string)
    ensures StrongPassword(password) <==>
      |password| >= 10 && TwoInRange(password, '0', '9') && TwoInRange(password, 'A', 'Z')
  {
    CountAtLeastTwo(password, '0', '9');
    CountAtLeastTwo(password, 'A', 'Z');
    |password| >= 10
    && CountInRange(password, '0', '9') >= 2
    && CountInRange(password, 'A', 'Z') >= 2
  }

  /** The handler over the set of registered emails. The email must contain
      `@` (error 0), must not be registered (error 1); any other request
      succeeds whatever the password, and the strength rule only decides
      whether the success is logged. */
  function Handle(email: string, password: string, registered: set<string>): (r: Outcome)
    ensures r.reply.Failure? ==> r.reply.errorCode == 0 || r.reply.errorCode == 1
    ensures r.reply == Failure(0, InvalidEmailMessage) <==> '@' !in email
    ensures r.reply == Failure(1, AlreadyRegisteredMessage) <==> '@' in email && email in registered
    ensures r.reply.Success? <==> '@' in email && email !in registered
    ensures r.loggedStrong <==> r.reply.Success? && StrongPassword(password)
  {
    if '@' !in email then Outcome(Failure(0, InvalidEmailMessage), false)
    else if email in registered then Outcome(Failure(1, AlreadyRegisteredMessage), false)
    else Outcome(Success, StrongPassword(password))
  }

  /** An email without `@` is rejected the same way whatever is registered:
      the lookup plays no part in that reply. */
  lemma InvalidEmailIgnoresStore(email: string, password: string, a: set<string>, b: set<string>)
    requires '@' !in email
    ensures Handle(email, password, a) == Handle(email, password, b)
  {
  }

  /** The handler run against the database: the lookup is made only for an
      email containing `@`, and the database is left as it was (nothing is
      inserted, no session is set). */
  method Post(db: UserStore.Database, email: string, password: string)
    returns (reply: Reply, loggedStrong: bool, ghost consulted: bool)
    ensures Outcome(reply, loggedStrong) == Handle(email, password, UserStore.Emails(db.registeredUsers))
    ensures consulted <==> '@' in email
    ensures db.registeredUsers == old(db.registeredUsers)
  {
    consulted := false;
    loggedStrong := false;
    if '@' !in email {
      return Failure(0, InvalidEmailMessage), loggedStrong, consulted;
    }
    consulted := true;
    var found := db.IsEmailAlreadyRegistered(email);
    if found.Some? {
      return Failure(1, AlreadyRegisteredMessage), loggedStrong, consulted;
    }
    var digits := CountInRange(password, '0', '9');
    var capitals := CountInRange(password, 'A', 'Z');
    if |password| >= 10 && digits >= 2 && capitals >= 2 {
      loggedStrong := true;
    }
    reply := Success;
  }
}
