// The SRTP context as it is updated packet by packet: the payload is encrypted
// and decrypted in place and the counters are fields.
module SrtpContext {
  import opened Common
  import opened SrtpIndex
  import opened SrtpKeys
  import opened Srtp

  class Context {
    const suite: Suite
    const cfg: Config
    const local: SessionKeys
    const remote: SessionKeys
    var roc: u32
    var rts: u32
    var replayList: set<seq<u8>>

    // base_srtp::init
    constructor (suite: Suite, cfg: Config, master: Master, rtcp: bool)
      requires |master.localSalt| == SALT_LENGTH && |master.remoteSalt| == SALT_LENGTH
      ensures this.suite == suite && this.cfg == cfg && roc == 0 && State() == Receiver(0, 0, {})
      ensures local == KeysFrom(suite.aes, rtcp, master.localKey, master.localSalt)
      ensures remote == KeysFrom(suite.aes, rtcp, master.remoteKey, master.remoteSalt)
    {
      this.suite, this.cfg := suite, cfg;
      local := KeysFrom(suite.aes, rtcp, master.localKey, master.localSalt);
      remote := KeysFrom(suite.aes, rtcp, master.remoteKey, master.remoteSalt);
      roc, rts, replayList := 0, 0, {};
    }

    function State(): Receiver
      reads this
    {
      Receiver(roc, rts, replayList)
    }

    // srtp::encrypt
    method Encrypt(ssrc: u32, sn: u16, buffer: array<u8>)
      requires suite.aes.Lawful()
      modifies this`roc, buffer
      ensures var p := Plain([], ssrc, sn, 0, old(buffer[..]));
              && buffer[..] == (if cfg.nullCipher then p else Encrypted(suite, local, old(roc), p)).payload
              && roc == SendRoc(cfg, old(roc), p)
    {
      hide IvFor;
      if cfg.nullCipher {
        return;
      }
      var iv := new u8[16];
      var index := SenderIndex(roc, sn);
      if sn == 0xffff {
        roc := Bump(roc);
      }
      CreateIv(iv, ssrc, index, local.salt);
      var cipher := suite.aes.ctr(local.enc, iv[..], buffer[..]);
      CopyInto(buffer, 0, cipher);
    }

    // srtp::send_packet_handler; the tag is computed with the counter as
    // Encrypt has left it.
    method SendPacketHandler(head: seq<u8>, ssrc: u32, sn: u16, ts: u32, payload: array<u8>) returns (tag: seq<u8>)
      requires suite.aes.Lawful()
      modifies this`roc, payload
      ensures var p := Plain(head, ssrc, sn, ts, old(payload[..]));
              && SendPacket(suite, cfg, local, old(roc), p) == Wire(p.(payload := payload[..]), tag)
              && roc == SendRoc(cfg, old(roc), p)
    {
      hide IvFor, LowFirst;
      Encrypt(ssrc, sn, payload);
      if !cfg.authenticate {
        return [];
      }
      tag := suite.mac(local.auth, head + payload[..] + LowFirst(roc, 4));
    }

    // base_srtp::is_replayed_packet
    method IsReplayed(digest: Tag) returns (replayed: bool)
      modifies this`replayList
      ensures replayed <==> cfg.replayProtection && digest[..8] in old(replayList)
      ensures replayList == old(replayList) + if cfg.replayProtection then {digest[..8]} else {}
    {
      if !cfg.replayProtection {
        return false;
      }
      if digest[..8] in replayList {
        return true;
      }
      replayList := replayList + {digest[..8]};
      return false;
    }

    // srtp::recv_packet_handler; what is left in payload is what the caller sees.
    method RecvPacketHandler(head: seq<u8>, ssrc: u32, sn: u16, ts: u32, payload: array<u8>, tag: seq<u8>)
      returns (code: Code)
      requires suite.aes.Lawful()
      modifies this`roc, this`rts, this`replayList, payload
      ensures var w := Wire(Plain(head, ssrc, sn, ts, old(payload[..])), tag);
              var (next, verdict) := ReceivePacket(suite, cfg, remote, old(State()), w);
              && State() == next
              && match verdict
                 case TagMismatch => code == GenericError && payload[..] == old(payload[..])
                 case Replayed => code == GenericError && payload[..] == old(payload[..])
                 case Untouched(bytes) => code == PktNotHandled && payload[..] == bytes
                 case Decrypted(bytes) => code == PktModified && payload[..] == bytes
    {
      hide IvFor, LowFirst;
      if cfg.authenticate {
        var digest := suite.mac(remote.auth, head + payload[..] + LowFirst(roc, 4));
        if digest != tag {
          return GenericError;
        }
        var replayed := IsReplayed(digest);
        if replayed {
          assert replayList == old(replayList);
          return GenericError;
        }
      }
      if cfg.nullCipher {
        return PktNotHandled;
      }
      var iv := new u8[16];
      LateBranchDead(roc, rts, sn, ts);
      var index := ReceiverIndex(roc, rts, sn, ts);
      if sn == 0xffff {
        roc := Bump(roc);
        rts := ts;
      }
      CreateIv(iv, ssrc, index, remote.salt);
      var plain := suite.aes.ctr(remote.enc, iv[..], payload[..]);
      CopyInto(payload, 0, plain);
      return PktModified;
    }
  }
}
