/** The CORS origin check: the allow list read from `ALLOWED_ORIGINS` and the per-request decision. */
module Cors {
  import opened Wrappers
  import opened Text

  /** `(ALLOWED_ORIGINS || "").split(",").map(origin => origin.trim())`. */
  function AllowedOrigins(env: Option<string>): (r: seq<string>)
    ensures |r| >= 1
    ensures forall i :: 0 <= i < |r| ==> ',' !in r[i]
    ensures forall i :: 0 <= i < |r| ==> r[i] == [] || (!IsSpace(r[i][0]) && !IsSpace(r[i][|r[i]| - 1]))
  {
    var pieces := Split(OrElse(env, ""), ',');
    seq(|pieces|, i requires 0 <= i < |pieces| => Trim(pieces[i]))
  }

  /** A request is let through when it has no origin, or its origin is listed exactly. */
  function Allow(origin: Option<string>, allowed: seq<string>): (r: bool)
    ensures origin.None? || origin == Some("") ==> r
    ensures origin.Some? && origin.value != "" ==> (r <==> exists i :: 0 <= i < |allowed| && allowed[i] == origin.value)
  {
    !Truthy(origin) || origin.value in allowed
  }

  /** Unset or empty, the variable yields the single entry "" and only requests without an origin pass. */
  lemma UnsetAllowsOnlyNoOrigin(env: Option<string>, origin: Option<string>)
    requires !Truthy(env)
    ensures AllowedOrigins(env) == [""]
    ensures Allow(origin, AllowedOrigins(env)) <==> !Truthy(origin)
  {
    assert Split("", ',') == [""];
    assert Trim("") == "";
  }

  /** A comma-separated list of comma-free origins, padded or not, is read back as the list of their
      trimmed forms. By `JoinSplit`, every value of the variable is such a list. */
  lemma ListedOriginsTrimmed(origins: seq<string>)
    requires |origins| >= 1
    requires forall i :: 0 <= i < |origins| ==> ',' !in origins[i]
    ensures AllowedOrigins(Some(Join(origins, ','))) == seq(|origins|, i requires 0 <= i < |origins| => Trim(origins[i]))
  {
    var env := Join(origins, ',');
    SplitJoin(origins, ',');
    assert OrElse(Some(env), "") == env;
  }

  /** An entry of a list of trimmed pieces is the trimmed form of one of the pieces, and each is one. */
  lemma InTrimmed(origins: seq<string>, r: seq<string>, o: string)
    requires |r| == |origins| && forall i :: 0 <= i < |r| ==> r[i] == Trim(origins[i])
    ensures o in r <==> exists i :: 0 <= i < |origins| && o == Trim(origins[i])
  {
    if o in r {
      var i :| 0 <= i < |r| && r[i] == o;
      assert o == Trim(origins[i]);
    }
    if exists i :: 0 <= i < |origins| && o == Trim(origins[i]) {
      var i :| 0 <= i < |origins| && o == Trim(origins[i]);
      assert r[i] == o;
    }
  }

  /** With such a list, a non-empty origin passes exactly when it equals one of the trimmed entries. */
  lemma ListedOriginAllowed(origins: seq<string>, o: string)
    requires |origins| >= 1
    requires forall i :: 0 <= i < |origins| ==> ',' !in origins[i]
    requires o != ""
    ensures Allow(Some(o), AllowedOrigins(Some(Join(origins, ',')))) <==> exists i :: 0 <= i < |origins| && o == Trim(origins[i])
  {
    var r := AllowedOrigins(Some(Join(origins, ',')));
    ListedOriginsTrimmed(origins);
    InTrimmed(origins, r, o);
  }

  /** Every value of the variable is the comma-join of its comma-free pieces, so `ListedOriginsTrimmed`
      describes the allow list for any value. */
  lemma EveryValueIsAList(e: string)
    ensures var ps := Split(e, ',');
      && |ps| >= 1 && (forall i :: 0 <= i < |ps| ==> ',' !in ps[i])
      && Join(ps, ',') == e
      && AllowedOrigins(Some(e)) == seq(|ps|, i requires 0 <= i < |ps| => Trim(ps[i]))
  {
    JoinSplit(e, ',');
    ListedOriginsTrimmed(Split(e, ','));
  }

  /** A comma-separated list of comma-free, already trimmed origins is read back as exactly that list. */
  lemma {:induction false} ListedOriginsRoundTrip(origins: seq<string>)
    requires |origins| >= 1
    requires forall i :: 0 <= i < |origins| ==> ',' !in origins[i]
    requires forall i :: 0 <= i < |origins| ==> origins[i] == [] || (!IsSpace(origins[i][0]) && !IsSpace(origins[i][|origins[i]| - 1]))
    ensures AllowedOrigins(Some(Join(origins, ','))) == origins
    ensures forall o :: o != "" ==> (Allow(Some(o), AllowedOrigins(Some(Join(origins, ',')))) <==> o in origins)
  {
    ListedOriginsTrimmed(origins);
    forall i | 0 <= i < |origins| ensures Trim(origins[i]) == origins[i] {
      Trimmed(origins[i]);
    }
  }

  /** An origin that starts or ends with white space is never allowed: every entry is trimmed. */
  lemma PaddedOriginRejected(env: Option<string>, o: string)
    requires o != [] && (IsSpace(o[0]) || IsSpace(o[|o| - 1]))
    ensures !Allow(Some(o), AllowedOrigins(env))
  {
    var r := AllowedOrigins(env);
    forall i | 0 <= i < |r| ensures r[i] != o {
      if r[i] != [] && |r[i]| == |o| {
        assert IsSpace(o[0]) ==> r[i][0] != o[0];
        assert IsSpace(o[|o| - 1]) ==> r[i][|o| - 1] != o[|o| - 1];
      }
    }
  }
}
