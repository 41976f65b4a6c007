/** The drives query: the binding of a cursor to its query, and the checks on a page. */
module HubDrives {
  import opened Utf16
  import opened Wrappers
  import opened Decimals
  import Json

  const DEFAULT_LIMIT := 100

  /** A safe integer as a template literal prints it. */
  function Print(n: int): (s: Text)
    ensures |s| > 0
  {
    if n < 0 then [Json.MINUS] + Canonical(-n) else Canonical(n)
  }

  function CursorBinding(vehicleId: Text, fromMs: Option<int>, toMs: Option<int>): Text {
    vehicleId + [NUL] + Print(fromMs.GetOr(0)) + [NUL] + Print(toMs.GetOr(MAX_SAFE_INTEGER))
  }

  predicate IsHex(u: Unit) { IsDigit(u) || 0x61 <= u <= 0x66 }

  /** Lower-case hexadecimal digits in groups of 8, 4, 4, 4 and 12. */
  predicate IsUuid(s: Text) {
    && |s| == 36
    && forall i :: 0 <= i < 36 ==> if i in {8, 13, 18, 23} then s[i] == Json.MINUS else IsHex(s[i])
  }

  lemma PrintInjective(m: int, n: int)
    requires Print(m) == Print(n)
    ensures m == n
  {
    DigitAt(Canonical(if m < 0 then -m else m), 0);
    DigitAt(Canonical(if n < 0 then -n else n), 0);
    if m < 0 && n < 0 { assert Print(m)[1..] == Canonical(-m) && Print(n)[1..] == Canonical(-n); }
  }

  lemma {:induction false} PrintHasNoSeparator(n: int)
    ensures NUL !in Print(n)
  {
    var digits := Canonical(if n < 0 then -n else n);
    forall i | 0 <= i < |digits| ensures digits[i] != NUL { DigitAt(digits, i); }
  }

  // Two texts without a separator that are followed by one can be told apart.
  lemma SplitAtSeparator(a: Text, b: Text, x: Text, y: Text)
    requires NUL !in a && NUL !in b && a + [NUL] + x == b + [NUL] + y
    ensures a == b && x == y
  {
    var s := a + [NUL] + x;
    assert s[|a|] == NUL && s[|b|] == NUL;
    assert a == s[..|a|] && b == s[..|b|];
    assert x == s[|a| + 1..] && y == s[|b| + 1..];
  }

  // Two queries share a binding exactly when they ask for the same vehicle and the same range, an absent bound
  // standing for its default.
  lemma BindingInjective(v: Text, f: Option<int>, t: Option<int>, v': Text, f': Option<int>, t': Option<int>)
    requires IsUuid(v) && IsUuid(v')
    ensures CursorBinding(v, f, t) == CursorBinding(v', f', t') <==>
            v == v' && f.GetOr(0) == f'.GetOr(0) && t.GetOr(9_007_199_254_740_991) == t'.GetOr(9_007_199_254_740_991)
  {
    hide Print, IsUuid;
    if CursorBinding(v, f, t) == CursorBinding(v', f', t') {
      var a, b := Print(f.GetOr(0)), Print(t.GetOr(MAX_SAFE_INTEGER));
      var a', b' := Print(f'.GetOr(0)), Print(t'.GetOr(MAX_SAFE_INTEGER));
      assert CursorBinding(v, f, t) == v + [NUL] + (a + [NUL] + b);
      assert CursorBinding(v', f', t') == v' + [NUL] + (a' + [NUL] + b');
      UuidHasNoSeparator(v);
      UuidHasNoSeparator(v');
      SplitAtSeparator(v, v', a + [NUL] + b, a' + [NUL] + b');
      PrintHasNoSeparator(f.GetOr(0));
      PrintHasNoSeparator(f'.GetOr(0));
      SplitAtSeparator(a, a', b, b');
      PrintInjective(f.GetOr(0), f'.GetOr(0));
      PrintInjective(t.GetOr(MAX_SAFE_INTEGER), t'.GetOr(MAX_SAFE_INTEGER));
    }
  }

  lemma UuidHasNoSeparator(v: Text)
    requires IsUuid(v)
    ensures NUL !in v
  {
    forall i | 0 <= i < |v| ensures v[i] != NUL {
      assert if i in {8, 13, 18, 23} then v[i] == Json.MINUS else IsHex(v[i]);
    }
  }

  /** The fields of a drive that the checks read; numbers are what JavaScript holds. */
  datatype Drive = Drive(id: real, vehicleId: Text, startDateMs: real)

  datatype PageError = VehicleIdentity | Limit | TimeRange | Order

  predicate OutOfOrder(earlier: Drive, drive: Drive) {
    earlier.startDateMs < drive.startDateMs || (earlier.startDateMs == drive.startDateMs && earlier.id <= drive.id)
  }

  predicate OutOfRange(drive: Drive, fromMs: int, toMs: int) {
    drive.startDateMs < Real(fromMs) || drive.startDateMs >= Real(toMs)
  }

  /** The checks of `drives` on a decoded page, in their order. */
  function CheckPage(items: seq<Drive>, vehicleId: Text, fromMs: Option<int>, toMs: Option<int>, limit: Option<int>)
    : Option<PageError>
  {
    if exists i :: 0 <= i < |items| && items[i].vehicleId != vehicleId then Some(VehicleIdentity)
    else if |items| > limit.GetOr(DEFAULT_LIMIT) then Some(Limit)
    else if exists i :: 0 <= i < |items| && OutOfRange(items[i], fromMs.GetOr(0), toMs.GetOr(MAX_SAFE_INTEGER)) then
      Some(TimeRange)
    else if exists i :: 1 <= i < |items| && OutOfOrder(items[i - 1], items[i]) then Some(Order)
    else None
  }

  // The error is that of the first check that fails: a drive of another vehicle, too many drives, a drive out of the
  // range, and then the order.
  lemma FirstError(items: seq<Drive>, vehicleId: Text, fromMs: Option<int>, toMs: Option<int>, limit: Option<int>)
    ensures var foreign := exists i :: 0 <= i < |items| && items[i].vehicleId != vehicleId;
            var tooMany := |items| > limit.GetOr(100);
            var outside := exists i :: 0 <= i < |items| &&
                             (items[i].startDateMs < Real(fromMs.GetOr(0)) ||
                              items[i].startDateMs >= Real(toMs.GetOr(9_007_199_254_740_991)));
            var error := CheckPage(items, vehicleId, fromMs, toMs, limit);
            && (error == Some(VehicleIdentity) <==> foreign)
            && (error == Some(Limit) <==> !foreign && tooMany)
            && (error == Some(TimeRange) <==> !foreign && !tooMany && outside)
            && (error == Some(Order) ==> !foreign && !tooMany && !outside)
  {
  }

  /** Later in time, or at the same time with the greater id. */
  predicate Precedes(a: Drive, b: Drive) {
    a.startDateMs > b.startDateMs || (a.startDateMs == b.startDateMs && a.id > b.id)
  }

  lemma {:induction false} AdjacentSuffices(items: seq<Drive>, i: nat, j: nat)
    requires forall k :: 1 <= k < |items| ==> !OutOfOrder(items[k - 1], items[k])
    requires i < j < |items|
    ensures Precedes(items[i], items[j])
    decreases j
  {
    assert !OutOfOrder(items[j - 1], items[j]);
    if i < j - 1 { AdjacentSuffices(items, i, j - 1); }
  }

  // A page is accepted exactly when it belongs to the vehicle, respects the limit and the half-open range, and is
  // strictly descending by start time and id between any two of its drives, so that no key occurs twice.
  lemma AcceptedPage(items: seq<Drive>, vehicleId: Text, fromMs: Option<int>, toMs: Option<int>, limit: Option<int>)
    ensures CheckPage(items, vehicleId, fromMs, toMs, limit) == None <==>
            && |items| <= limit.GetOr(100)
            && (forall i :: 0 <= i < |items| ==>
                  && items[i].vehicleId == vehicleId
                  && Real(fromMs.GetOr(0)) <= items[i].startDateMs < Real(toMs.GetOr(9_007_199_254_740_991)))
            && (forall i, j :: 0 <= i < j < |items| ==> Precedes(items[i], items[j]))
  {
    if CheckPage(items, vehicleId, fromMs, toMs, limit) == None {
      forall i, j | 0 <= i < j < |items| ensures Precedes(items[i], items[j]) {
        AdjacentSuffices(items, i, j);
      }
    } else if forall i, j :: 0 <= i < j < |items| ==> Precedes(items[i], items[j]) {
      assert forall k :: 1 <= k < |items| ==> Precedes(items[k - 1], items[k]);
    }
  }
}
