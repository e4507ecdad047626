/** UltraHonk verification-key ids: `uhk/<circuit>/<version>/<artifact-hash>`. */
module KeyIds {
  import opened Outcomes
  import opened Text
  import opened Circuits
  import opened Requests

  const VK_SCHEME := "uhk"
  const MAX_KEY_ID_LEN := 128

  datatype KeyParts = KeyParts(circuit: CircuitId, version: Version, hash: Digest256)

  /** What `VerificationKeyId::new` lets through. */
  predicate IsKeyId(id: string) {
    id != "" && ByteLen(id) <= MAX_KEY_ID_LEN
  }

  function IdFor(k: KeyParts): string {
    Join([VK_SCHEME, k.circuit, DisplayVersion(k.version), k.hash], '/')
  }

  function Parse(id: string): Option<KeyParts> {
    var parts := Split(id, '/');
    if |parts| != 4 || parts[0] != VK_SCHEME then None
    else
      match NewCircuitId(parts[1])
      case Err(_) => None
      case Ok(circuit) =>
        var version :- ParseVersion(parts[2]);
        var hash :- ParseDigest(parts[3]);
        Some(KeyParts(circuit, version, hash))
  }

  lemma PartsHaveNoSlash(k: KeyParts)
    ensures Separable([VK_SCHEME, k.circuit, DisplayVersion(k.version), k.hash], '/')
  {
    DisplayVersionChars(k.version);
    assert !Contains(k.circuit, '/') by {
      assert forall i :: 0 <= i < |k.circuit| ==> IsCircuitIdChar(k.circuit[i]);
    }
    assert !Contains(DisplayVersion(k.version), '/');
    assert !Contains(k.hash, '/');
  }

  /** Parsing an id that was formed gives back exactly its three parts. */
  lemma IdRoundTrip(k: KeyParts)
    ensures Parse(IdFor(k)) == Some(k)
  {
    PartsHaveNoSlash(k);
    SplitJoin([VK_SCHEME, k.circuit, DisplayVersion(k.version), k.hash], '/');
    CircuitIdAccepted(k.circuit);
    VersionRoundTrip(k.version);
    ParseDigestMeaning(k.hash, k.hash, k.hash);
  }

  /** So no two different keys share an id. */
  lemma IdForInjective(a: KeyParts, b: KeyParts)
    ensures IdFor(a) == IdFor(b) <==> a == b
  {
    IdRoundTrip(a);
    IdRoundTrip(b);
  }

  /** A formed id is short enough exactly for circuit and version texts up to 58 together. */
  lemma FormedIdFits(k: KeyParts)
    ensures IsKeyId(IdFor(k)) <==> |k.circuit| + |DisplayVersion(k.version)| <= 58
  {
    var id, version := IdFor(k), DisplayVersion(k.version);
    IdText(k);
    DisplayVersionChars(k.version);
    assert forall i :: 0 <= i < |k.circuit| ==> IsCircuitIdChar(k.circuit[i]);
    forall i | 0 <= i < |id| ensures IsAscii(id[i]) {
      assert IsVersionChar('0') && (IsVersionChar(id[i]) ==> IsAscii(id[i]));
    }
    AsciiByteLen(id);
  }

  lemma IdText(k: KeyParts)
    ensures IdFor(k) == "uhk/" + k.circuit + "/" + DisplayVersion(k.version) + "/" + k.hash
  {
    JoinFour(VK_SCHEME, k.circuit, DisplayVersion(k.version), k.hash);
  }

  lemma JoinFour(a: string, b: string, c: string, d: string)
    ensures Join([a, b, c, d], '/') == a + "/" + b + "/" + c + "/" + d
  {
    var parts := [a, b, c, d];
    assert parts[1..] == [b, c, d] && [b, c, d][1..] == [c, d] && [c, d][1..] == [d];
    assert Join([c, d], '/') == c + "/" + d;
    assert Join([b, c, d], '/') == b + "/" + (c + "/" + d);
    assert Join(parts, '/') == a + "/" + (b + "/" + (c + "/" + d));
  }

  /** `id` spells the scheme and circuit literally, and the last two parts in any accepted way. */
  predicate Spells(id: string, k: KeyParts, version: string, hash: string) {
    && ParseVersion(version) == Some(k.version) && ParseDigest(hash) == Some(k.hash)
    && !Contains(version, '/') && !Contains(hash, '/')
    && id == Join([VK_SCHEME, k.circuit, version, hash], '/')
  }

  lemma ParsedSpells(id: string, k: KeyParts) returns (version: string, hash: string)
    requires Parse(id) == Some(k)
    ensures Spells(id, k, version, hash)
  {
    var parts := Split(id, '/');
    JoinSplit(id, '/');
    CircuitIdAccepted(parts[1]);
    version, hash := parts[2], parts[3];
    assert parts == [VK_SCHEME, k.circuit, version, hash];
  }

  lemma SpelledParses(id: string, k: KeyParts, version: string, hash: string)
    requires Spells(id, k, version, hash)
    ensures Parse(id) == Some(k)
  {
    var parts := [VK_SCHEME, k.circuit, version, hash];
    assert !Contains(k.circuit, '/') by {
      assert forall i :: 0 <= i < |k.circuit| ==> IsCircuitIdChar(k.circuit[i]);
    }
    SplitJoin(parts, '/');
    CircuitIdAccepted(k.circuit);
  }

  /** Parsing is many to one: an id parses to `k` exactly when it spells `k`. */
  lemma ParseSpellings(id: string, k: KeyParts)
    ensures Parse(id) == Some(k) <==> exists version, hash :: Spells(id, k, version, hash)
  {
    if Parse(id) == Some(k) {
      var version, hash := ParsedSpells(id, k);
    }
    if version, hash :| Spells(id, k, version, hash) {
      SpelledParses(id, k, version, hash);
    }
  }
}
