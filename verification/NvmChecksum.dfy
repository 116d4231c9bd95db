/** Updating and validating the checksums of the 82580 and the i350, on an NVM whose accesses may fail. */
module NvmChecksum {
  import opened Numbers
  import opened Checksum

  datatype Status = Success | ReadError | WriteError | BadChecksum

  class Nvm {
    var words: seq<Word>
    // whether every access within the image succeeds
    const responding: bool

    constructor (words: seq<Word>, responding: bool)
      ensures this.words == words && this.responding == responding
    {
      this.words, this.responding := words, responding;
    }

    // nvm.ops.read of one word
    method Read(i: nat) returns (s: Status, v: Word)
      ensures s == Success || s == ReadError
      ensures s == Success ==> i < |words| && v == words[i]
      ensures responding && i < |words| ==> s == Success
    {
      var fails: bool := *;
      if i < |words| && (responding || !fails) { return Success, words[i]; }
      s, v := ReadError, *;
    }

    // nvm.ops.write of one word; when it fails the word may have been written or not
    method Write(i: nat, v: Word) returns (s: Status)
      modifies this`words
      ensures s == Success || s == WriteError
      ensures words == old(words) || (i < |old(words)| && words == old(words)[i := v])
      ensures s == Success ==> i < |old(words)| && words == old(words)[i := v]
      ensures responding && i < |words| ==> s == Success
    {
      var fails, written: bool := *, *;
      s := WriteError;
      if i < |words| && (responding || !fails || written) {
        words := words[i := v];
        if responding || !fails { s := Success; }
      }
    }

    // e1000_validate_nvm_checksum_with_offset
    method ValidateRegion(offset: nat) returns (s: Status)
      ensures s == Success ==> RegionValid(words, offset)
      ensures s == BadChecksum ==> offset + 0x3F < |words| && !RegionValid(words, offset)
      ensures s != WriteError
      ensures responding && offset + 0x3F < |words| ==> s != ReadError
    {
      var checksum: Word := 0;
      var i := offset;
      while i < NVM_CHECKSUM_REG + offset + 1
        invariant offset <= i <= 0x3F + offset + 1
        invariant i > offset ==> i <= |words|
        invariant i > offset ==> checksum == Sum(words, offset, i - offset)
        invariant i == offset ==> checksum == 0
      {
        var data;
        s, data := Read(i);
        if s != Success { return; }
        checksum := (checksum + data) % 0x1_0000;
        i := i + 1;
      }
      ValidIff(words, offset);
      s := if checksum != NVM_SUM then BadChecksum else Success;
    }

    // e1000_update_nvm_checksum_with_offset
    method UpdateRegion(offset: nat) returns (s: Status)
      modifies this`words
      ensures s == Success ==> offset + 0x3F < |old(words)| && words == Fixed(old(words), offset)
      ensures words == old(words) || (offset + 0x3F < |old(words)| && words == Fixed(old(words), offset))
      ensures responding && offset + 0x3F < |words| ==> s == Success
    {
      var checksum: Word := 0;
      var i := offset;
      while i < NVM_CHECKSUM_REG + offset
        invariant offset <= i <= 0x3F + offset && words == old(words)
        invariant i > offset ==> i <= |words|
        invariant i > offset ==> checksum == Sum(words, offset, i - offset)
        invariant i == offset ==> checksum == 0
      {
        var data;
        s, data := Read(i);
        if s != Success { return; }
        checksum := (checksum + data) % 0x1_0000;
        i := i + 1;
      }
      checksum := (NVM_SUM + 0x1_0000 - checksum) % 0x1_0000;
      s := Write(NVM_CHECKSUM_REG + offset, checksum);
    }

    // The loop over `ports` regions of the validate functions.
    method ValidatePorts(ports: nat) returns (s: Status)
      requires 1 <= ports <= 4
      ensures s == Success ==> forall port :: 0 <= port < ports ==> RegionValid(words, RegionOffset(port))
      ensures s == BadChecksum ==> exists port :: 0 <= port < ports && !RegionValid(words, RegionOffset(port))
      ensures s != WriteError
      ensures responding && 0x13F < |words| ==> s != ReadError
    {
      var j := 0;
      s := Success;
      while j < ports
        invariant j <= ports && s == Success
        invariant forall port :: 0 <= port < j ==> RegionValid(words, RegionOffset(port))
      {
        s := ValidateRegion(RegionOffset(j));
        if s != Success { return; }
        j := j + 1;
      }
    }

    // The loop over the four regions of the update functions. Stopped by an error it has rewritten the
    // checksums of some number of ports from 0 on, each completely.
    method UpdatePorts() returns (s: Status, ghost done: nat)
      modifies this`words
      ensures done <= 4 && (s == Success ==> done == 4)
      ensures (done > 0 ==> RegionOffset(done - 1) + 0x3F < |old(words)|) &&
              words == FixedUpTo(old(words), done)
      ensures responding && 0x13F < |old(words)| ==> s == Success
    {
      var j := 0;
      s, done := Success, 0;
      while j < 4
        invariant j == done <= 4 && s == Success && |words| == |old(words)|
        invariant (done > 0 ==> RegionOffset(done - 1) + 0x3F < |old(words)|) &&
                  words == FixedUpTo(old(words), done)
      {
        ghost var before := words;
        s := UpdateRegion(RegionOffset(j));
        if s != Success {
          if words != before { done := done + 1; }
          return;
        }
        j, done := j + 1, done + 1;
      }
    }

    // e1000_validate_nvm_checksum_i350
    method ValidateI350() returns (s: Status)
      ensures s == Success ==> AllValid(words)
      ensures s == BadChecksum ==> !AllValid(words)
      ensures s != WriteError
      ensures responding && 0x13F < |words| ==> (s == Success <==> AllValid(words))
    {
      FourPorts(words);
      s := ValidatePorts(4);
    }

    // e1000_update_nvm_checksum_i350
    method UpdateI350() returns (s: Status)
      modifies this`words
      ensures s == Success ==> AllValid(words)
      ensures OnlyChecksumsChanged(old(words), words)
      ensures AllValid(old(words)) ==> words == old(words)
      ensures responding && 0x13F < |words| ==> s == Success
    {
      ghost var done;
      s, done := UpdatePorts();
      FixedUpToValid(old(words), done);
      FourPorts(old(words));
      FourPorts(words);
      if AllValid(old(words)) { FixedUpToIdempotent(old(words), done); }
    }

    // e1000_validate_nvm_checksum_82580: all four ports only if the compatibility bit is set
    method Validate82580() returns (s: Status)
      ensures s == Success ==> |words| > 3 && RegionValid(words, 0) && (Compatible(words) ==> AllValid(words))
      ensures s == BadChecksum ==> |words| > 3 && !(RegionValid(words, 0) && (Compatible(words) ==> AllValid(words)))
      ensures s != WriteError
      ensures responding && 0x13F < |words| ==>
                (s == Success <==> RegionValid(words, 0) && (Compatible(words) ==> AllValid(words)))
    {
      var data;
      s, data := Read(NVM_COMPATIBILITY_REG_3);
      if s != Success { return; }
      FourPorts(words);
      s := ValidatePorts(if data >= 0x8000 then 4 else 1);
      assert RegionOffset(0) == 0;
    }

    // e1000_update_nvm_checksum_82580
    method Update82580() returns (s: Status)
      modifies this`words
      ensures s == Success ==> |words| > 3 && AllValid(words) && Compatible(words)
      ensures |words| == |old(words)|
      ensures forall k :: 0 <= k < |words| && k != 3 && !IsChecksumWord(k) ==>
              words[k] == old(words)[k]
      ensures |words| > 3 ==> words[3] == old(words)[3] || words[3] == SetCompatible(old(words)[3])
      ensures |words| > 3 && AllValid(old(words)) && Compatible(old(words)) ==> words == old(words)
      ensures responding && 0x13F < |words| ==> s == Success
    {
      var data;
      s, data := Read(NVM_COMPATIBILITY_REG_3);
      if s != Success { return; }
      if data < 0x8000 {
        s := Write(NVM_COMPATIBILITY_REG_3, data + 0x8000);
        if s != Success { return; }
      }
      ghost var start := words;
      ghost var done;
      s, done := UpdatePorts();
      FixedUpToValid(start, done);
      FourPorts(start);
      FourPorts(words);
      if AllValid(start) { FixedUpToIdempotent(start, done); }
      assert !IsChecksumWord(3);
    }
  }

  ghost predicate IsChecksumWord(k: nat) { k == 0x3F || k == 0xBF || k == 0xFF || k == 0x13F }

  ghost predicate OnlyChecksumsChanged(a: seq<Word>, b: seq<Word>) {
    |a| == |b| && forall k :: 0 <= k < |a| && !IsChecksumWord(k) ==> a[k] == b[k]
  }

  // After an update that reports success the matching validate never finds a bad checksum: it succeeds
  // unless one of its reads fails.
  method UpdateThenValidate82580(nvm: Nvm) returns (updated: Status, validated: Status)
    modifies nvm`words
    ensures updated == Success ==> validated == Success || validated == ReadError
    ensures nvm.responding && updated == Success ==> validated == Success
    ensures nvm.responding && 0x13F < |nvm.words| ==> updated == Success
  {
    updated := nvm.Update82580();
    validated := nvm.Validate82580();
  }

  method UpdateThenValidateI350(nvm: Nvm) returns (updated: Status, validated: Status)
    modifies nvm`words
    ensures updated == Success ==> validated == Success || validated == ReadError
    ensures nvm.responding && updated == Success ==> validated == Success
    ensures nvm.responding && 0x13F < |nvm.words| ==> updated == Success
  {
    updated := nvm.UpdateI350();
    validated := nvm.ValidateI350();
  }
}
