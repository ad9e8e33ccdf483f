/**
 * The role guard: a handler may declare the roles it requires, and a request
 * passes when the authenticated user's role claim contains one of them.
 */
module Auth {
  import opened Wrappers
  import opened Entities

  /**
   * The `role` claim of an authenticated user. `includes` means membership
   * when the claim is a list and substring containment when it is a string.
   */
  datatype RoleClaim = RoleList(roles: seq<string>) | RoleText(text: string)

  /** The authenticated user attached to a request; its role claim may be missing. */
  datatype User = User(role: Option<RoleClaim>)

  /** `needle` occurs in `hay` starting at position 0. */
  predicate IsPrefix(needle: string, hay: string)
  {
    |needle| <= |hay| && hay[..|needle|] == needle
  }

  /** `needle` occurs somewhere in `hay`, as `String.prototype.includes` decides. */
  predicate IsSubstring(needle: string, hay: string)
    decreases |hay|
  {
    IsPrefix(needle, hay) || (|hay| > 0 && IsSubstring(needle, hay[1..]))
  }

  /** `needle` occurs in `hay` starting at position `i`. */
  predicate OccursAt(needle: string, hay: string, i: int)
  {
    0 <= i && i + |needle| <= |hay| && hay[i..i + |needle|] == needle
  }

  /** The scan above finds exactly the positions where `needle` occurs. */
  lemma {:induction false} IsSubstringIff(needle: string, hay: string)
    ensures IsSubstring(needle, hay) <==> exists i :: OccursAt(needle, hay, i)
    decreases |hay|
  {
    if IsPrefix(needle, hay) {
      assert OccursAt(needle, hay, 0);
    } else if |hay| > 0 {
      IsSubstringIff(needle, hay[1..]);
      if exists i :: OccursAt(needle, hay, i) {
        var i :| OccursAt(needle, hay, i);
        assert i != 0;
        assert OccursAt(needle, hay[1..], i - 1) by {
          assert hay[1..][i - 1..i - 1 + |needle|] == hay[i..i + |needle|];
        }
      }
      if IsSubstring(needle, hay[1..]) {
        var i :| OccursAt(needle, hay[1..], i);
        assert OccursAt(needle, hay, i + 1) by {
          assert hay[1..][i..i + |needle|] == hay[i + 1..i + 1 + |needle|];
        }
      }
    }
  }

  /** `claim.includes(role)`. */
  predicate Includes(claim: RoleClaim, role: string)
  {
    match claim
    case RoleList(roles) => role in roles
    case RoleText(text) => IsSubstring(role, text)
  }

  /** `user?.role?.includes(role)`: a missing user or claim yields a falsy `undefined`. */
  predicate HasRole(user: Option<User>, role: string)
  {
    user.Some? && user.value.role.Some? && Includes(user.value.role.value, role)
  }

  /** `required.some(role => HasRole(user, role))`. */
  function AnyIncluded(required: seq<string>, user: Option<User>): (r: bool)
    ensures r <==> exists i :: 0 <= i < |required| && HasRole(user, required[i])
  {
    if |required| == 0 then false
    else HasRole(user, required[0]) || AnyIncluded(required[1..], user)
  }

  /**
   * The guard's decision. No required-role metadata lets the request through;
   * otherwise it passes exactly when some required role is included in the
   * user's claim, and is refused with Forbidden otherwise. An empty list is
   * metadata all the same, so it is refused.
   */
  function CanActivate(required: Option<seq<string>>, user: Option<User>): (r: Result<bool, Failure>)
    ensures r.Ok? ==> r.value
    ensures r.Err? ==> r.error == Forbidden
    ensures required.None? ==> r == Ok(true)
    ensures required.Some? ==>
      (r.Ok? <==> exists i :: 0 <= i < |required.value| && HasRole(user, required.value[i]))
  {
    if required.None? then Ok(true)
    else
      var hasRole := AnyIncluded(required.value, user);
      if !hasRole then Err(Forbidden) else Ok(hasRole)
  }

  /** An empty list of required roles refuses every user. */
  lemma EmptyRequirementDenies(user: Option<User>)
    ensures CanActivate(Some([]), user) == Err(Forbidden)
  {
  }

  /** Without a user, or with a user that carries no role claim, a declared requirement refuses. */
  lemma MissingClaimDenied(required: seq<string>, user: Option<User>)
    requires user.None? || user.value.role.None?
    ensures CanActivate(Some(required), user) == Err(Forbidden)
  {
  }

  /** Listing more acceptable roles never turns an admitted user away. */
  lemma MoreRolesAdmitMore(required: seq<string>, extra: seq<string>, user: Option<User>)
    requires CanActivate(Some(required), user).Ok?
    ensures CanActivate(Some(required + extra), user).Ok?
    ensures CanActivate(Some(extra + required), user).Ok?
  {
    var i :| 0 <= i < |required| && HasRole(user, required[i]);
    assert (required + extra)[i] == required[i];
    assert (extra + required)[|extra| + i] == required[i];
  }

  /** A list claim must hold a required role exactly: "SUPERADMIN" does not satisfy "ADMIN". */
  lemma ListClaimNeedsExactRole()
    ensures CanActivate(Some(["ADMIN"]), Some(User(Some(RoleList(["SUPERADMIN"]))))) == Err(Forbidden)
  {
    assert "ADMIN" != "SUPERADMIN" by {
      assert |"ADMIN"| != |"SUPERADMIN"|;
    }
  }

  /** A string claim is searched for substrings: "SUPERADMIN" satisfies "ADMIN". */
  lemma TextClaimMatchesSubstring()
    ensures CanActivate(Some(["ADMIN"]), Some(User(Some(RoleText("SUPERADMIN"))))) == Ok(true)
  {
    var hay, needle := "SUPERADMIN", "ADMIN";
    assert OccursAt(needle, hay, 5);
    IsSubstringIff(needle, hay);
  }
}
