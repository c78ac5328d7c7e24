/** OFDM symbols: inverse FFT plus cyclic prefix, and back. */
module Ofdm {
  import opened Common
  import opened ComplexNumbers
  import opened NatBits
  import opened Dft
  import opened Fft
  import opened DftInverse

  datatype OfdmConfig = OfdmConfig(fftSize: nat, cpLen: nat)

  /** The prefix repeats the end of the symbol, so it cannot be longer than the symbol. */
  method OfdmModulate(freq: seq<Complex>, cfg: OfdmConfig, bw: seq<Complex>) returns (r: Option<seq<Complex>>)
    requires cfg.cpLen <= cfg.fftSize
    requires forall m: nat | |freq| == Pow2(m) :: Twiddles(bw, m)
    ensures r.Some? <==> |freq| == cfg.fftSize && exists m: nat :: cfg.fftSize == Pow2(m)
    ensures forall m: nat | r.Some? && |freq| == Pow2(m) ::
      && |bw| > m && |r.value| == cfg.cpLen + cfg.fftSize
      && r.value[cfg.cpLen..] == Spectrum(freq, true, bw[m]) && IsTransform(freq, true, bw[m], r.value[cfg.cpLen..])
      && r.value[..cfg.cpLen] == r.value[cfg.fftSize..]
  {
    hide Twiddles, Pow2, Spectrum, IsTransform;
    if |freq| != cfg.fftSize { return None; }
    var time := FftRadix2(freq, true, bw);
    if time.None? { return None; }
    ghost var m: nat :| |freq| == Pow2(m);
    assert |time.value| == |freq| by { assert time == Some(Spectrum(freq, true, bw[m])); }
    var n := |time.value|;
    var out := time.value[n - cfg.cpLen..] + time.value;
    return Some(out);
  }

  method OfdmDemodulate(signal: seq<Complex>, cfg: OfdmConfig, fw: seq<Complex>) returns (r: Option<seq<Complex>>)
    requires forall m: nat | cfg.fftSize == Pow2(m) :: Twiddles(fw, m)
    ensures r.Some? <==> |signal| == cfg.cpLen + cfg.fftSize && exists m: nat :: cfg.fftSize == Pow2(m)
    ensures forall m: nat | r.Some? && cfg.fftSize == Pow2(m) ::
      && |fw| > m && r.value == Spectrum(signal[cfg.cpLen..], false, fw[m])
      && IsTransform(signal[cfg.cpLen..], false, fw[m], r.value)
  {
    hide Twiddles, Pow2, Spectrum, IsTransform;
    if |signal| != cfg.cpLen + cfg.fftSize { return None; }
    r := FftRadix2(signal[cfg.cpLen..], false, fw);
  }

  /** Demodulating a modulated symbol gives the subcarriers back, and the prefix repeats the end of
      the symbol. */
  method RoundTrip(freq: seq<Complex>, cfg: OfdmConfig, fw: seq<Complex>, bw: seq<Complex>)
      returns (signal: Option<seq<Complex>>, r: Option<seq<Complex>>)
    requires cfg.cpLen <= cfg.fftSize && forall m: nat | cfg.fftSize == Pow2(m) :: InversePair(fw, bw, m)
    ensures signal.Some? <==> |freq| == cfg.fftSize && exists m: nat :: cfg.fftSize == Pow2(m)
    ensures signal.Some? ==> r == Some(freq)
  {
    hide Twiddles, Pow2, Spectrum, IsTransform;
    if |freq| != cfg.fftSize { return None, None; }
    signal := OfdmModulate(freq, cfg, bw);
    if signal.None? { return None, None; }
    ghost var m: nat :| cfg.fftSize == Pow2(m);
    assert |signal.value| == cfg.cpLen + cfg.fftSize by { assert |freq| == Pow2(m); }
    r := OfdmDemodulate(signal.value, cfg, fw);
    TransformsInvert(freq, fw, bw, m);
    assert r == Some(Spectrum(signal.value[cfg.cpLen..], false, fw[m]));
  }
}
