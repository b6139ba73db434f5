/**
 The streaming demasker of demask/Demasker.hpp, with no tolerant pass: an object that
 holds back the last bytes of what it has restored so far.
 */
module Demasker {
  import opened Bytes
  import opened Replacer
  import Runes

  /** What one call gives: the bytes emitted, and the bytes held back. */
  datatype Emission = Emission(out: bytes, pending: bytes)

  function Held(cfg: Config, text: bytes): Emission {
    if |text| <= cfg.maxPending then Emission([], text)
    else
      var e := Runes.SafePrefixEnd(text, |text| - cfg.maxPending);
      if e == 0 then Emission([], text) else Emission(text[..e], text[e..])
  }

  function Call(cfg: Config, json: bool, pending: bytes, chunk: bytes, flush: bool): Emission
    requires NonBlank(cfg.entries)
  {
    if pending + chunk == [] then Emission([], [])
    else
      var text := Restore(cfg.entries, json, pending + chunk);
      if flush then Emission(text, []) else Held(cfg, text)
  }

  class StreamDemasker {
    const cfg: Config
    const json: bool
    var pending: bytes

    constructor (cfg: Config, json: bool)
      ensures this.cfg == cfg && this.json == json && pending == []
    {
      this.cfg, this.json, pending := cfg, json, [];
    }

    method DemaskChunk(chunk: bytes, flush: bool) returns (out: bytes)
      requires Consistent(cfg)
      modifies this
      ensures Emission(out, pending) == Call(cfg, json, old(pending), chunk, flush)
    {
      hide Restore, Runes.SafePrefixEnd, IndexOk, LengthsOk, FirstBytesOk, NonBlank;
      var text := pending + chunk;
      pending := [];
      if text == [] {
        return [];
      }
      text := ApplyExact(cfg, json, text);
      if flush {
        return text;
      }
      if |text| <= cfg.maxPending {
        pending := text;
        return [];
      }
      var safeEnd := Runes.Utf8SafePrefixEnd(text, |text| - cfg.maxPending);
      if safeEnd == 0 {
        pending := text;
        return [];
      }
      out := text[..safeEnd];
      pending := text[safeEnd..];
    }
  }

  /** demask_all: the text in one call, flushed. */
  method DemaskAll(cfg: Config, json: bool, text: bytes) returns (out: bytes)
    requires Consistent(cfg)
    ensures out == Restore(cfg.entries, json, text)
  {
    hide IndexOk, LengthsOk, FirstBytesOk;
    var d := new StreamDemasker(cfg, json);
    assert [] + text == text;
    out := d.DemaskChunk(text, true);
  }

  /** A call that does not flush emits nothing, or leaves the last `maxPending` bytes unemitted; no byte is lost. */
  lemma HoldsBackTail(cfg: Config, json: bool, pending: bytes, chunk: bytes)
    requires NonBlank(cfg.entries)
    ensures var r := Call(cfg, json, pending, chunk, false);
      && r.out + r.pending == Restore(cfg.entries, json, pending + chunk)
      && (r.out != [] ==> |r.pending| >= cfg.maxPending)
  {
    hide Runes.SafePrefixEnd;
    var text := Restore(cfg.entries, json, pending + chunk);
    if |text| > cfg.maxPending {
      var e := Runes.SafePrefixEnd(text, |text| - cfg.maxPending);
      assert text[..e] + text[e..] == text;
    }
  }

  // ---- A whole stream ----

  function Joined(chunks: seq<bytes>): bytes {
    if chunks == [] then [] else chunks[0] + Joined(chunks[1..])
  }

  /** The bytes emitted for each chunk, and for the flushed last one. */
  function Emitted(cfg: Config, json: bool, pending: bytes, chunks: seq<bytes>, last: bytes): seq<bytes>
    requires NonBlank(cfg.entries)
    decreases |chunks|
  {
    if chunks == [] then [Call(cfg, json, pending, last, true).out]
    else
      var r := Call(cfg, json, pending, chunks[0], false);
      [r.out] + Emitted(cfg, json, r.pending, chunks[1..], last)
  }

  /** A driver: every chunk is fed, then the last one is flushed. */
  method Stream(cfg: Config, json: bool, chunks: seq<bytes>, last: bytes) returns (pieces: seq<bytes>)
    requires Consistent(cfg)
    ensures pieces == Emitted(cfg, json, [], chunks, last)
  {
    hide Call, Consistent;
    assert NonBlank(cfg.entries) by { ConsistentParts(cfg); }
    var d := new StreamDemasker(cfg, json);
    pieces := [];
    for i := 0 to |chunks|
      invariant d.cfg == cfg && d.json == json
      invariant pieces + Emitted(cfg, json, d.pending, chunks[i..], last) == Emitted(cfg, json, [], chunks, last)
    {
      ghost var before, was := pieces, d.pending;
      assert chunks[i..][1..] == chunks[i + 1..];
      var out := d.DemaskChunk(chunks[i], false);
      pieces := pieces + [out];
      Join3(before, [out], Emitted(cfg, json, d.pending, chunks[i + 1..], last));
    }
    var out := d.DemaskChunk(last, true);
    pieces := pieces + [out];
  }
}
