/** lib/netcheck/audit.py: what an audit entry may say. How a key is lower-cased is a parameter. */
module AuditRedaction {
  import opened JsonValue

  const FORBIDDEN_KEYS := {"password", "old_password", "new_password", "token", "secret",
                           "credentials", "auth", "session", "cookie"}

  const REDACTED := Str("[REDACTED]")

  /** redact: the values of forbidden keys are replaced, at every depth. */
  function Redact(lower: string -> string, forbidden: set<string>, obj: Json): Json
  {
    match obj
    case Obj(members) =>
      Obj(map k | k in members :: if lower(k) in forbidden then REDACTED else Redact(lower, forbidden, members[k]))
    case Arr(items) => Arr(seq(|items|, i requires 0 <= i < |items| => Redact(lower, forbidden, items[i])))
    case _ => obj
  }

  /** Two values that differ only in what stands under forbidden keys. */
  ghost predicate SamePublic(lower: string -> string, forbidden: set<string>, a: Json, b: Json)
  {
    match (a, b)
    case (Obj(m), Obj(n)) =>
      m.Keys == n.Keys && forall k :: k in m && lower(k) !in forbidden ==> SamePublic(lower, forbidden, m[k], n[k])
    case (Arr(x), Arr(y)) =>
      |x| == |y| && forall i :: 0 <= i < |x| ==> SamePublic(lower, forbidden, x[i], y[i])
    case _ => a == b
  }

  lemma {:induction false} RedactObjects(lower: string -> string, forbidden: set<string>, m: map<string, Json>,
                                         n: map<string, Json>)
    ensures Redact(lower, forbidden, Obj(m)) == Redact(lower, forbidden, Obj(n)) <==>
            && m.Keys == n.Keys
            && forall k :: k in m && lower(k) !in forbidden ==>
                 Redact(lower, forbidden, m[k]) == Redact(lower, forbidden, n[k])
  {
    var x, y := Redact(lower, forbidden, Obj(m)).members, Redact(lower, forbidden, Obj(n)).members;
    assert x.Keys == m.Keys && y.Keys == n.Keys;
    if x == y {
      forall k | k in m && lower(k) !in forbidden
        ensures Redact(lower, forbidden, m[k]) == Redact(lower, forbidden, n[k])
      {
        assert x[k] == y[k];
      }
    }
  }

  lemma {:induction false} RedactLists(lower: string -> string, forbidden: set<string>, x: seq<Json>, y: seq<Json>)
    ensures Redact(lower, forbidden, Arr(x)) == Redact(lower, forbidden, Arr(y)) <==>
            |x| == |y| && forall i :: 0 <= i < |x| ==> Redact(lower, forbidden, x[i]) == Redact(lower, forbidden, y[i])
  {
    var u, v := Redact(lower, forbidden, Arr(x)).items, Redact(lower, forbidden, Arr(y)).items;
    if u == v {
      assert |x| == |y|;
      forall i | 0 <= i < |x| ensures Redact(lower, forbidden, x[i]) == Redact(lower, forbidden, y[i]) {
        assert u[i] == v[i];
      }
    }
  }

  /** The redacted entry reveals exactly the public part: two details are written alike if and only if they differ
      at most in the values of forbidden keys. */
  lemma {:induction false} RedactRevealsIff(lower: string -> string, forbidden: set<string>, a: Json, b: Json)
    ensures Redact(lower, forbidden, a) == Redact(lower, forbidden, b) <==> SamePublic(lower, forbidden, a, b)
  {
    match (a, b)
    case (Obj(m), Obj(n)) =>
      RedactObjects(lower, forbidden, m, n);
      forall k | k in m && k in n { RedactRevealsIff(lower, forbidden, m[k], n[k]); }
    case (Arr(x), Arr(y)) =>
      RedactLists(lower, forbidden, x, y);
      forall i | 0 <= i < |x| && i < |y| { RedactRevealsIff(lower, forbidden, x[i], y[i]); }
    case _ =>
  }

  /** What is written of an object: the same member names, the nine forbidden ones blanked whatever their case, and the
      others redacted in turn. */
  lemma {:induction false} RedactMember(lower: string -> string, m: map<string, Json>, k: string)
    requires k in m
    ensures var out := Redact(lower, FORBIDDEN_KEYS, Obj(m));
            && out.Obj? && out.members.Keys == m.Keys
            && out.members[k] ==
               if lower(k) in {"password", "old_password", "new_password", "token", "secret",
                               "credentials", "auth", "session", "cookie"} then Str("[REDACTED]")
               else Redact(lower, FORBIDDEN_KEYS, m[k])
  {
  }

  /** Redacting twice changes nothing more. */
  lemma {:induction false} RedactIdempotent(lower: string -> string, forbidden: set<string>, a: Json)
    ensures Redact(lower, forbidden, Redact(lower, forbidden, a)) == Redact(lower, forbidden, a)
  {
    match a
    case Obj(m) =>
      forall k | k in m { RedactIdempotent(lower, forbidden, m[k]); }
    case Arr(x) =>
      forall i | 0 <= i < |x| { RedactIdempotent(lower, forbidden, x[i]); }
    case _ =>
  }
}
