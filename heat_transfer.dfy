/**
  The heat transfer system: the six-neighbour heat exchange is recorded for
  every live cell, the command buffer is played back, and only then are the
  heat buffers folded into the temperatures.
 */
module HeatTransferSystem {
  import opened Vectors
  import opened GlobalConfig
  import opened CellWorld
  import opened Diffusion
  import opened PublicJobs

  /**
    `OnUpdate`: `HeatTransferJob` over the live cells in query order `order`,
    playback of its buffer, then `TemperatureUpdateJob`.
   */
  method HeatTransferUpdate(w: World, order: seq<Entity>, configs: seq<CellConfig>, coefficient: real)
    requires w.Valid()
    modifies w`cells
    ensures w.Valid()
    ensures w.cells == TemperaturesUpdated(Playback(old(w.cells), RecordAll(w.cellMap, old(w.cells), configs, coefficient, Heat, order)), configs)
  {
    var ecb := RecordDiffusion(w.cellMap, w.cells, configs, coefficient, Heat, order);
    PlaybackKeepsMap(w.cellMap, w.cells, ecb);
    w.cells := Playback(w.cells, ecb);
    UpdatesKeepMap(w.cellMap, w.cells, configs);
    UpdateTemperatures(w, configs);
  }
}
